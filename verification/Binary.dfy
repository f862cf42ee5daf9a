/** Numbers as two's complement bytes, highest first: mp_int_to_binary and mp_int_read_binary. */
module Binary {

  import opened Digits
  import opened Magnitude
  import opened Integers
  import opened Shifts
  import opened Text
  import opened Common

  /** x * 256^n */
  function Up(x: int, n: nat): (r: int)
    ensures x >= 0 ==> r >= 0
    ensures x > 0 ==> r > 0
  {
    if n == 0 then x else 256 * Up(x, n - 1)
  }

  lemma {:induction false} UpAdd(x: int, y: int, n: nat)
    ensures Up(x + y, n) == Up(x, n) + Up(y, n)
  {
    if n > 0 { UpAdd(x, y, n - 1); }
  }

  lemma {:induction false} UpMono(x: int, y: int, n: nat)
    requires x <= y
    ensures Up(x, n) <= Up(y, n) && (x < y ==> Up(x, n) < Up(y, n))
  {
    if n > 0 { UpMono(x, y, n - 1); }
  }

  lemma {:induction false} UpIn(x: int, n: nat)
    ensures Up(256 * x, n) == Up(x, n + 1)
  {
    if n > 0 { UpIn(x, n - 1); }
  }

  lemma {:induction false} UpZero(n: nat)
    ensures Up(0, n) == 0 && Up(1, n) > 0
  {
    if n > 0 { UpZero(n - 1); }
  }

  /** The unsigned number of a byte string */
  function Unsigned(b: seq<byte>): int {
    if b == [] then 0 else 256 * Unsigned(b[..|b| - 1]) + b[|b| - 1]
  }

  lemma {:induction false} UnsignedHead(x: byte, b: seq<byte>)
    ensures Unsigned([x] + b) == Up(x, |b|) + Unsigned(b)
  {
    if b == [] {
      assert [x] + b == [x] && [x][..0] == [];
    } else {
      var n := |b| - 1;
      UnsignedHead(x, b[..n]);
      assert ([x] + b)[..n + 1] == [x] + b[..n];
    }
  }

  lemma {:induction false} UnsignedBound(b: seq<byte>)
    ensures 0 <= Unsigned(b) < Up(1, |b|)
  {
    if b != [] {
      UnsignedBound(b[..|b| - 1]);
    }
  }

  /** Byte strings of one length are told apart by their numbers */
  lemma {:induction false} UnsignedUnique(a: seq<byte>, b: seq<byte>)
    requires |a| == |b| && Unsigned(a) == Unsigned(b)
    ensures a == b
  {
    if a != [] {
      var n := |a| - 1;
      assert a[n] == b[n] && Unsigned(a[..n]) == Unsigned(b[..n]);
      UnsignedUnique(a[..n], b[..n]);
      assert a == a[..n] + [a[n]] && b == b[..n] + [b[n]];
    }
  }

  /** The number with the top bit as the sign */
  function Signed(b: seq<byte>): int {
    if b != [] && b[0] >= 128 then Unsigned(b) - Up(1, |b|) else Unsigned(b)
  }

  /** The top bit is set in the upper half of the range */
  lemma TopBit(b: seq<byte>)
    requires b != []
    ensures b[0] >= 128 <==> 2 * Unsigned(b) >= Up(1, |b|)
  {
    var n := |b| - 1;
    assert b == [b[0]] + b[1..];
    UnsignedHead(b[0], b[1..]);
    UnsignedBound(b[1..]);
    UpIn(1, n);
    UpAdd(128, 128, n);
    if b[0] >= 128 {
      UpMono(128, b[0], n);
    } else {
      UpMono(b[0] + 1, 128, n);
      UpAdd(b[0], 1, n);
    }
  }

  // ---------------------------------------------------------------- two's complement

  /** One byte complemented and a carry taken: x becomes y, and t is carried on */
  lemma CarryStep(lo: int, u: int, s: int, x: int, y: int, t: int, n: nat)
    requires u + lo == Up(1 - s, n) && 256 * t + y == 255 - x + s
    ensures Up(y, n) + u + (Up(x, n) + lo) == Up(1 - t, n + 1)
  {
    UpAdd(y, x, n);
    UpAdd(y + x, 1 - s, n);
    assert y + x + (1 - s) == 256 * (1 - t);
    UpIn(1 - t, n);
  }

  function Flip(x: int, s: int): int {
    255 - x + s
  }

  /** One turn of s_2comp: byte i is complemented and takes the carry */
  method FlipByte(buf: array<byte>, i: nat, len: nat, s: int, ghost was: seq<byte>) returns (t: int)
    requires i < len == |was| && len <= buf.Length && 0 <= s <= 1 && buf[i] == was[i]
    requires Unsigned(buf[i + 1..len]) + Unsigned(was[i + 1..]) == Up(1 - s, len - i - 1)
    modifies buf
    ensures 0 <= t <= 1 && buf[..i] == old(buf[..i]) && buf[len..] == old(buf[len..])
    ensures Unsigned(buf[i..len]) + Unsigned(was[i..]) == Up(1 - t, len - i)
  {
    ghost var tail, rest := buf[i + 1..len], was[i + 1..];
    var c := Flip(buf[i], s);
    FlipValue(was[i], s, c % 256, c / 256, tail, rest);
    assert was[i..] == [was[i]] + rest;
    buf[i] := c % 256;
    t := c / 256;
    assert buf[i..len] == [buf[i]] + tail;
  }

  lemma FlipValue(x: byte, s: int, y: byte, t: int, tail: seq<byte>, rest: seq<byte>)
    requires |tail| == |rest| && Unsigned(tail) + Unsigned(rest) == Up(1 - s, |rest|) && 256 * t + y == Flip(x, s)
    ensures Unsigned([y] + tail) + Unsigned([x] + rest) == Up(1 - t, |rest| + 1)
  {
    CarryStep(Unsigned(rest), Unsigned(tail), s, x, y, t, |rest|);
    UnsignedHead(x, rest);
    UnsignedHead(y, tail);
  }

  /** s_2comp, in place */
  method TwosComplement(buf: array<byte>, len: nat)
    requires len <= buf.Length
    modifies buf
    ensures buf[len..] == old(buf[len..])
    ensures Unsigned(buf[..len]) == if Unsigned(old(buf[..len])) == 0 then 0 else Up(1, len) - Unsigned(old(buf[..len]))
  {
    ghost var was := buf[..len];
    var s: int, i := 1, len;
    assert buf[len..len] == [] && was[len..] == [];
    while i > 0
      invariant 0 <= i <= len && 0 <= s <= 1 && buf[len..] == old(buf[len..]) && buf[..i] == was[..i]
      invariant Unsigned(buf[i..len]) + Unsigned(was[i..]) == Up(1 - s, len - i)
    {
      assert buf[i - 1] == was[i - 1] by { assert buf[..i][i - 1] == was[..i][i - 1]; }
      i := i - 1;
      s := FlipByte(buf, i, len, s, was);
      assert buf[..i] == was[..i];
    }
    assert buf[0..len] == buf[..len] && was[0..] == was;
    UnsignedBound(buf[..len]);
    UnsignedBound(was);
    UpZero(len);
  }

  /** Taking the two's complement twice restores the bytes */
  method ComplementTwice(buf: array<byte>, len: nat)
    requires len <= buf.Length
    modifies buf
    ensures buf[..] == old(buf[..])
  {
    UnsignedBound(buf[..len]);
    TwosComplement(buf, len);
    TwosComplement(buf, len);
    UnsignedUnique(buf[..len], old(buf[..len]));
    assert buf[..] == buf[..len] + buf[len..] && old(buf[..]) == old(buf[..len]) + old(buf[len..]);
  }

  // ---------------------------------------------------------------- writing

  /** The bytes of a number, lowest first, without leading zeros */
  function Little(v: nat): (b: seq<byte>)
    ensures b != []
  {
    [v % 256] + if v / 256 == 0 then [] else Little(v / 256)
  }

  lemma RevValue(x: byte, t: seq<byte>)
    ensures Unsigned(Rev([x] + t)) == 256 * Unsigned(Rev(t)) + x
  {
    RevCons(x, t);
    assert (Rev(t) + [x])[..|t|] == Rev(t);
  }

  lemma {:induction false} LittleValue(v: nat)
    ensures Unsigned(Rev(Little(v))) == v
  {
    var q, x := v / 256, v % 256;
    if q == 0 {
      RevValue(x, []);
    } else {
      LittleValue(q);
      RevValue(x, Little(q));
    }
  }

  /** With a zero byte when the top bit would look like a sign */
  function Padded(v: nat): seq<byte> {
    var b := Little(v); if b[|b| - 1] >= 128 then b + [0] else b
  }

  /** Highest byte first, the padded bytes are the number and look positive */
  lemma PaddedValue(v: nat)
    ensures var b := Rev(Padded(v)); b != [] && Unsigned(b) == v && b[0] < 128
  {
    var b := Little(v);
    LittleValue(v);
    if b[|b| - 1] >= 128 {
      RevSnoc(b, 0);
      UnsignedHead(0, Rev(b));
      UpZero(|b|);
    }
  }

  lemma {:induction false} LittleLength(v: nat)
    ensures var n := |Little(v)|; v < Up(1, n) && (n == 1 || v >= Up(1, n - 1))
  {
    if v / 256 > 0 {
      LittleLength(v / 256);
    }
  }

  /** The padded bytes are as many as a signed number needs, and no more */
  lemma PaddedLength(v: nat)
    ensures var n := |Padded(v)|; 2 * v < Up(1, n) && (n == 1 || 2 * v >= Up(1, n - 1))
  {
    var b := Little(v);
    LittleLength(v);
    LittleValue(v);
    TopBit(Rev(b));
  }

  /** What of the number is still to come: d with i bytes of its digit left, below hi */
  ghost predicate Remains(out: seq<byte>, d: int, hi: nat, i: nat, all: nat) {
    && 0 <= d < Up(1, i)
    && (if i == 0 && hi == 0 then out == Little(all) else out + Little(d + Up(hi, i)) == Little(all))
  }

  /** The inner loop of s_tobin: the bytes of one digit, with hi the digits above it */
  method DigitBytes(x: digit, last: bool, start: seq<byte>, limit: nat, ghost hi: nat, ghost all: nat) returns (cut: bool, out: seq<byte>)
    requires |start| < limit && Remains(start, x, hi, 4, all) && (last <==> hi == 0)
    ensures |start| < |out| <= limit
    ensures !cut ==> Remains(out, 0, hi, 0, all)
    ensures cut ==> |Little(all)| > limit
  {
    var d: int, i := x, 4;
    out := start;
    while i > 0 && |out| < limit
      invariant 0 <= i <= 4 && |start| <= |out| <= limit && (i < 4 ==> |start| < |out|) && Remains(out, d, hi, i, all)
    {
      LittleStep(out, d, d % 256, d / 256, hi, i, all);
      out := out + [d % 256];
      d := d / 256;
      i := if d == 0 && last then 0 else i - 1;
    }
    cut := i > 0;
    UpZero(0);
  }

  lemma UpFour(x: int)
    ensures Up(x, 4) == 0x1_0000_0000 * x
  {
    assert Up(x, 1) == 256 * x;
    assert Up(x, 2) == 256 * Up(x, 1);
    assert Up(x, 3) == 256 * Up(x, 2);
  }

  lemma StepRange(d: int, y: byte, e: int, hi: nat, i: nat)
    requires i >= 1 && 0 <= d < Up(1, i) && d == 256 * e + y
    ensures 0 <= e < Up(1, i - 1) && d + Up(hi, i) == 256 * (e + Up(hi, i - 1)) + y
    ensures e + Up(hi, i - 1) == 0 <==> e == 0 && hi == 0
    ensures Up(1, 0) == 1 && Up(hi, 0) == hi
  {
    UpZero(i - 1);
  }

  /** One byte more is out; a last digit that has become 0 is done */
  lemma LittleStep(out: seq<byte>, d: int, y: byte, e: int, hi: nat, i: nat, all: nat)
    requires i >= 1 && Remains(out, d, hi, i, all) && d == 256 * e + y
    ensures Remains(out + [y], e, hi, if e == 0 && hi == 0 then 0 else i - 1, all)
  {
    StepRange(d, y, e, hi, i);
    OneOut(out, d + Up(hi, i), y, e + Up(hi, i - 1), Little(all));
  }

  lemma OneOut(out: seq<byte>, v: nat, y: byte, r: nat, whole: seq<byte>)
    requires out + Little(v) == whole && v == 256 * r + y
    ensures if r == 0 then out + [y] == whole else (out + [y]) + Little(r) == whole
  {
    LittleNext(v, y, r);
    if r == 0 {
      assert out + [y] == out + ([y] + []);
    } else {
      Joined(out, y, Little(r));
    }
  }

  lemma Joined(out: seq<byte>, y: byte, t: seq<byte>)
    ensures (out + [y]) + t == out + ([y] + t)
  {
  }

  lemma LittleNext(v: nat, y: byte, r: nat)
    requires v == 256 * r + y
    ensures Little(v) == [y] + if r == 0 then [] else Little(r)
  {
    assert v / 256 == r && v % 256 == y;
  }

  /** The digits from j on, and those above them */
  lemma DigitsFrom(m: seq<digit>, j: nat)
    requires Normal(m) && j < |m|
    ensures Num(m[j..]) == m[j] + Up(Num(m[j + 1..]), 4) && Num(m[j + 1..]) >= 0
    ensures j == |m| - 1 <==> Num(m[j + 1..]) == 0
  {
    assert m[j..] == [m[j]] + m[j + 1..];
    Prepend(m[j], m[j + 1..]);
    UpFour(Num(m[j + 1..]));
    NumBound(m[j + 1..]);
    if j < |m| - 1 {
      NormalIff(m[j + 1..]);
      ShlPos(|m| - j - 2);
    }
  }

  /** The digits from j on are still to come */
  ghost predicate ToCome(out: seq<byte>, m: seq<digit>, j: nat)
    requires j <= |m|
  {
    NumBound(m); NumBound(m[j..]);
    if j == |m| then out == Little(Num(m)) else out + Little(Num(m[j..])) == Little(Num(m))
  }

  /** The outer loop of s_tobin */
  method ToBytes(m: seq<digit>, limit: nat) returns (cut: bool, out: seq<byte>)
    requires Normal(m) && limit >= 1
    ensures Num(m) >= 0 && 1 <= |out| <= limit
    ensures cut <==> |Little(Num(m))| > limit
    ensures !cut ==> out == Little(Num(m))
  {
    NumBound(m);
    var j := 0;
    out := [];
    cut := false;
    assert m[0..] == m;
    while j < |m| && |out| < limit && !cut
      invariant 0 <= j <= |m| && |out| <= limit && (j > 0 || cut ==> |out| > 0) && (cut ==> j < |m|)
      invariant if cut then |Little(Num(m))| > limit else ToCome(out, m, j)
      decreases |m| - j, !cut
    {
      cut, out := NextDigit(m, j, out, limit);
      if !cut {
        j := j + 1;
      }
    }
    cut := j < |m|;
  }

  method NextDigit(m: seq<digit>, j: nat, start: seq<byte>, limit: nat) returns (cut: bool, out: seq<byte>)
    requires Normal(m) && j < |m| && |start| < limit && ToCome(start, m, j)
    ensures |out| <= limit && |out| > 0
    ensures cut ==> Num(m) >= 0 && |Little(Num(m))| > limit
    ensures !cut ==> ToCome(out, m, j + 1)
  {
    NumBound(m);
    DigitsFrom(m, j);
    UpFour(1);
    cut, out := DigitBytes(m[j], j == |m| - 1, start, limit, Num(m[j + 1..]), Num(m));
  }

  /** s_tobin with padding: the magnitude, highest byte first, at the front of the buffer */
  method ToBin(m: seq<digit>, buf: array<byte>, limit: nat) returns (ok: bool, len: nat)
    requires Normal(m) && 1 <= limit <= buf.Length
    modifies buf
    ensures Num(m) >= 0 && len <= limit && (ok <==> |Padded(Num(m))| <= limit)
    ensures ok ==> len > 0 && Unsigned(buf[..len]) == Num(m) && buf[..len][0] < 128
  {
    var cut, out := ToBytes(m, limit);
    PaddedValue(Num(m));
    ok := !cut;
    if out[|out| - 1] >= 128 {
      if |out| < limit {
        out := out + [0];
      } else {
        ok := false;
      }
    }
    len := |out|;
    PutReversed(out, buf);
  }

  method PutReversed(out: seq<byte>, buf: array<byte>)
    requires |out| <= buf.Length
    modifies buf
    ensures buf[..|out|] == Rev(out)
  {
    var k := 0;
    assert out[|out|..] == [];
    while k < |out|
      invariant k <= |out| && buf[..k] == Rev(out[|out| - k..])
    {
      var x := out[|out| - 1 - k];
      assert out[|out| - 1 - k..] == [x] + out[|out| - k..];
      buf[k] := x;
      RevCons(x, out[|out| - k..]);
      assert buf[..k + 1] == buf[..k] + [x];
      k := k + 1;
    }
    assert out[0..] == out;
  }

  /** The two's complement of a positive byte string is its negative */
  lemma Negated(b: seq<byte>, c: seq<byte>)
    requires |b| == |c| > 0 && Unsigned(c) == if Unsigned(b) == 0 then 0 else Up(1, |b|) - Unsigned(b)
    ensures b[0] < 128 ==> Signed(c) == -Unsigned(b)
    ensures b[0] >= 128 ==> -Unsigned(c) == Signed(b)
  {
    TopBit(b);
    TopBit(c);
    UnsignedBound(b);
  }

  /** mp_int_to_binary: with MP_OK the bytes are the number's two's complement; MP_TRUNC when they do not fit */
  method ToBinary(z: MpInt, buf: array<byte>, limit: nat) returns (ok: bool, len: nat)
    requires z.Valid() && 1 <= limit <= buf.Length
    modifies buf
    ensures z.Mag() >= 0 && len <= limit && (ok <==> |Padded(z.Mag())| <= limit)
    ensures ok ==> len > 0 && Signed(buf[..len]) == z.Value()
  {
    ok, len := ToBin(z.digits, buf, limit);
    if z.neg {
      Negate(buf, len);
    }
  }

  /** The bytes of a number that look positive become those of its negative */
  method Negate(buf: array<byte>, len: nat)
    requires len <= buf.Length
    modifies buf
    ensures len > 0 && old(buf[..len])[0] < 128 ==> Signed(buf[..len]) == -Unsigned(old(buf[..len]))
  {
    ghost var was := buf[..len];
    TwosComplement(buf, len);
    if len > 0 {
      Negated(was, buf[..len]);
    }
  }

  // ---------------------------------------------------------------- reading

  /** The low digit of a multiple of 256 has room for a byte */
  lemma LowByteFree(s: seq<digit>, k: int, x: byte)
    requires Normal(s) && Num(s) == 256 * k
    ensures s[0] + x < 0x1_0000_0000 && Normal(s[0 := s[0] + x]) && Num(s[0 := s[0] + x]) == 256 * k + x
  {
    var t := s[1..];
    assert s == [s[0]] + t;
    Prepend(s[0], t);
    RoomForByte(s[0], Num(t), k, x);
    var d: digit := s[0] + x;
    Prepend(d, t);
    assert s[0 := d] == [d] + t;
  }

  lemma RoomForByte(d: digit, n: int, k: int, x: byte)
    requires d + 0x1_0000_0000 * n == 256 * k
    ensures d + x < 0x1_0000_0000
  {
    assert d == 256 * (k - 0x100_0000 * n);
  }

  /** The loop of mp_int_read_binary: shift up by a byte and put the next one in */
  method ReadBytes(z: MpInt, b: seq<byte>)
    requires z.Valid() && z.Mag() == 0
    modifies z
    ensures z.Valid() && z.neg == old(z.neg) && z.Mag() == Unsigned(b)
  {
    var i := 0;
    while i < |b|
      invariant i <= |b| && z.Valid() && z.neg == old(z.neg) && z.Mag() == Unsigned(b[..i])
    {
      ghost var k := z.Mag();
      assert b[..i + 1][..i] == b[..i];
      Lsh8(k);
      QMul(z, 8);
      LowByteFree(z.digits, k, b[i]);
      z.digits := z.digits[0 := z.digits[0] + b[i]];
      i := i + 1;
    }
    assert b[..|b|] == b;
  }

  /** mp_int_read_binary: the number the bytes stand for, and the bytes as they were */
  method ReadBinary(z: MpInt, buf: array<byte>, len: nat)
    requires 0 < len <= buf.Length
    modifies z, buf
    ensures z.Valid() && z.Value() == Signed(old(buf[..len]))
    ensures buf[..] == old(buf[..])
  {
    SetZero(z);
    var negative := buf[0] >= 128;
    ghost var was := buf[..];
    if negative {
      z.neg := true;
      TwosComplement(buf, len);
      Negated(was[..len], buf[..len]);
    }
    ReadBytes(z, buf[..len]);
    if z.neg {
      ghost var mid := buf[..len];
      UnsignedBound(was[..len]);
      TwosComplement(buf, len);
      UnsignedUnique(buf[..len], was[..len]);
      assert buf[..] == buf[..len] + buf[len..] && was == was[..len] + was[len..];
    }
  }

  /** What mp_int_to_binary writes, mp_int_read_binary reads back as the same number */
  method Reread(z: MpInt, y: MpInt, buf: array<byte>, limit: nat) returns (ok: bool)
    requires z.Valid() && y != z && 1 <= limit <= buf.Length
    modifies y, buf
    ensures z.Mag() >= 0 && (ok <==> |Padded(z.Mag())| <= limit)
    ensures ok ==> y.Valid() && y.Value() == z.Value()
  {
    var len;
    ok, len := ToBinary(z, buf, limit);
    if ok {
      ReadBinary(y, buf, len);
    }
  }
}
