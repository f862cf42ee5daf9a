/** Incremental MD5 around any compression function. */
module Md5 {

  import opened Common

  const BUFLEN := 64
  /** One more than the bit counter can hold */
  const COUNT := 0x1_0000_0000_0000_0000

  /** The compression of one block into the state */
  type Compress<!S> = (S, bytes) -> S

  /** The state after a message of whole blocks */
  function Digest<S>(f: Compress<S>, init: S, m: bytes): S
    requires |m| % 64 == 0
    decreases |m|
  {
    if m == [] then init else
      var n := |m| - BUFLEN; f(Digest(f, init, m[..n]), m[n..])
  }

  /** The n low bytes of a number, lowest first */
  function Low(x: nat, n: nat): (b: bytes)
    ensures |b| == n
  {
    if n == 0 then [] else [x % 256] + Low(x / 256, n - 1)
  }

  lemma {:induction false} LowAt(x: nat, n: nat, i: nat)
    requires i < n
    ensures Low(x, n)[i] == x / Pow256(i) % 256
  {
    if i > 0 {
      LowAt(x / 256, n - 1, i - 1);
      DivThen(x, 256, Pow256(i - 1));
    }
  }

  function Zeros(n: nat): bytes {
    seq(n, i => 0)
  }

  /** Zero bytes between the marker and the length */
  function Gap(n: nat): (g: nat)
    ensures g < BUFLEN && (n + 1 + g + 8) % 64 == 0
  {
    (119 - n % 64) % 64
  }

  /** Sections 3.1 and 3.2 of RFC 1321: a one bit, zeros, and the length in bits modulo 2^64 */
  function Padded(m: bytes, count: nat): bytes {
    m + [0x80] + Zeros(Gap(|m|)) + Low(count, 8)
  }

  /**
   The padded message byte by byte: whole blocks and no more than needed, the message,
   the byte 80 hex, zeros, and the eight bytes of the count from the lowest up.
   */
  ghost predicate PaddedAs(m: bytes, count: nat, p: bytes) {
    && |p| % 64 == 0 && |m| + 9 <= |p| < |m| + 9 + 64 && p[..|m|] == m && p[|m|] == 0x80
    && (forall j :: |m| < j < |p| - 8 ==> p[j] == 0)
    && (forall i :: 0 <= i < 8 ==> p[|p| - 8 + i] == count / Pow256(i) % 256)
  }

  lemma PaddedShape(m: bytes, count: nat)
    ensures PaddedAs(m, count, Padded(m, count))
  {
    var p := Padded(m, count);
    forall i | 0 <= i < 8
      ensures p[|p| - 8 + i] == count / Pow256(i) % 256
    {
      LowAt(count, 8, i);
      assert p[|p| - 8 + i] == Low(count, 8)[i];
    }
    PaddedFront(m, count);
  }

  lemma PaddedFront(m: bytes, count: nat)
    ensures var p := Padded(m, count);
      && |p| == |m| + 9 + Gap(|m|) && p[..|m|] == m && p[|m|] == 0x80 && forall j :: |m| < j < |p| - 8 ==> p[j] == 0
  {
  }

  /** The states between the blocks: the j-th block takes the j-th state to the next */
  ghost predicate Folds<S>(f: Compress<S>, init: S, p: bytes, ss: seq<S>) {
    && |p| + 64 == 64 * |ss| && ss[0] == init
    && forall j {:trigger FoldStep(f, p, ss, j)} :: 0 <= j < |ss| - 1 ==> FoldStep(f, p, ss, j)
  }

  ghost predicate FoldStep<S>(f: Compress<S>, p: bytes, ss: seq<S>, j: nat)
    requires j + 1 < |ss| && 64 * j + 64 <= |p|
  {
    ss[j + 1] == f(ss[j], p[64 * j..64 * j + 64])
  }

  lemma {:induction false} DigestFolds<S>(f: Compress<S>, init: S, p: bytes) returns (ss: seq<S>)
    requires |p| % 64 == 0
    ensures Folds(f, init, p, ss) && ss[|ss| - 1] == Digest(f, init, p)
    decreases |p|
  {
    if p == [] {
      ss := [init];
    } else {
      var n := |p| - BUFLEN;
      var ts := DigestFolds(f, init, p[..n]);
      ss := FoldsNext(f, init, p, n, ts);
    }
  }

  lemma FoldsNext<S>(f: Compress<S>, init: S, p: bytes, n: nat, ts: seq<S>) returns (ss: seq<S>)
    requires |p| == n + BUFLEN && Folds(f, init, p[..n], ts)
    ensures Folds(f, init, p, ss) && ss[|ss| - 1] == f(ts[|ts| - 1], p[n..])
  {
    var last := |ts| - 1;
    ss := ts + [f(ts[last], p[n..])];
    forall j | 0 <= j < last
      ensures FoldStep(f, p, ss, j)
    {
      assert FoldStep(f, p[..n], ts, j);
      SameBlock(p, n, j);
    }
    assert n == 64 * last && p[n..] == p[64 * last..64 * last + 64];
    assert FoldStep(f, p, ss, last);
  }

  lemma SameBlock(p: bytes, n: nat, j: nat)
    requires 64 * j + 64 <= n <= |p|
    ensures p[..n][64 * j..64 * j + 64] == p[64 * j..64 * j + 64]
  {
  }

  /** Another whole block after whole blocks */
  lemma DigestNext<S>(f: Compress<S>, init: S, m: bytes, b: bytes)
    requires |m| % 64 == 0 && |b| == BUFLEN
    ensures |m + b| % 64 == 0 && Digest(f, init, m + b) == f(Digest(f, init, m), b)
  {
    assert (m + b)[..|m|] == m && (m + b)[|m|..] == b;
  }

  /** The counter after a call of len bytes: the bits are counted in 32 bits before they are added */
  function Counter(n: nat, len: nat): nat {
    (n + 8 * len % 0x1_0000_0000) % 0x1_0000_0000_0000_0000
  }

  /** It is right exactly when the call is shorter than 2^29 bytes */
  lemma CounterExact(total: nat, len: nat)
    requires len < 0x1_0000_0000
    ensures Counter(8 * total % 0x1_0000_0000_0000_0000, len) == 8 * (total + len) % 0x1_0000_0000_0000_0000 <==> len < 0x2000_0000
  {
    var a, b := 8 * total % 0x1_0000_0000_0000_0000, 8 * len % 0x1_0000_0000;
    var q := 8 * total / 0x1_0000_0000_0000_0000;
    assert 8 * total == q * 0x1_0000_0000_0000_0000 + a;
    Congruent(a, b, 8 * len, q);
  }

  lemma Congruent(a: nat, b: nat, c: nat, q: nat)
    requires a < COUNT && b < 0x1_0000_0000 && b <= c < 8 * 0x1_0000_0000 && (c - b) % 0x1_0000_0000 == 0
    ensures (a + b) % 0x1_0000_0000_0000_0000 == (q * 0x1_0000_0000_0000_0000 + a + c) % 0x1_0000_0000_0000_0000 <==> b == c
  {
    assert (q * 0x1_0000_0000_0000_0000 + (a + c)) % 0x1_0000_0000_0000_0000 == (a + c) % 0x1_0000_0000_0000_0000;
    if a + c < COUNT {
      assert (a + c) % 0x1_0000_0000_0000_0000 == a + c && (a + b) % 0x1_0000_0000_0000_0000 == a + b;
    } else if a + b < COUNT {
      assert (a + c) % 0x1_0000_0000_0000_0000 == a + c - COUNT;
    }
  }

  class Context<!S> {
    const f: Compress<S>
    const init: S
    var state: S
    var n: nat
    var i: nat
    var buf: bytes
    ghost var done: bytes

    /** The state has taken all whole blocks of what was hashed, and the buffer holds the rest */
    ghost predicate Tracks(m: bytes)
      reads this
    {
      && i < BUFLEN == |buf| && |done| % 64 == 0 && n < COUNT
      && m == done + buf[..i] && state == Digest(f, init, done)
    }

    /** md5_init */
    constructor (g: Compress<S>, s: S)
      ensures Tracks([]) && n == 0 && f == g && init == s
    {
      f, init, state, n, i := g, s, s, 0, 0;
      buf := Zeros(BUFLEN);
      done := [];
    }

    /** md5_calc on a block: the whole blocks grow by it */
    method Calc(b: bytes)
      requires |b| == BUFLEN && |done| % 64 == 0 && state == Digest(f, init, done)
      modifies this`state, this`done
      ensures done == old(done) + b && |done| % 64 == 0 && state == Digest(f, init, done)
    {
      ghost var more := done + b;
      DigestNext(f, init, done, b);
      state, done := f(state, b), more;
    }

    /** md5_loop */
    method Loop(input: bytes, ghost m: bytes)
      requires Tracks(m)
      modifies this
      ensures Tracks(m + input) && n == Counter(old(n), |input|)
    {
      n := Counter(n, |input|);
      var gap := BUFLEN - i;
      if |input| >= gap {
        Joined(done, buf[..i], input, gap);
        buf := buf[..i] + input[..gap];
        Calc(buf);
        Rest(input, gap);
      } else {
        Joined(done, buf[..i], input, |input|);
        buf := buf[..i] + input + buf[i + |input|..];
        i := i + |input|;
        assert buf[..i] == old(buf[..i]) + input;
      }
    }

    /** The part of md5_loop after the buffer was filled */
    method Rest(input: bytes, gap: nat)
      requires gap <= |input| && |buf| == BUFLEN && |done| % 64 == 0 && state == Digest(f, init, done) && n < COUNT
      modifies this`state, this`done, this`i, this`buf
      ensures Tracks(old(done) + input[gap..])
    {
      var k := gap;
      while k + BUFLEN <= |input|
        invariant gap <= k <= |input| && |done| % 64 == 0 && state == Digest(f, init, done) && |buf| == BUFLEN
        invariant done == old(done) + input[gap..k]
      {
        Calc(input[k..k + BUFLEN]);
        Slices(old(done), input, gap, k, k + BUFLEN);
        k := k + BUFLEN;
      }
      Slices(old(done), input, gap, k, |input|);
      Keep(input[k..]);
    }

    /** Less than a block is left for the next call */
    method Keep(rest: bytes)
      requires |rest| < BUFLEN == |buf| && |done| % 64 == 0 && state == Digest(f, init, done) && n < COUNT
      modifies this`i, this`buf
      ensures Tracks(done + rest)
    {
      i := |rest|;
      buf := rest + buf[i..];
      assert buf[..i] == rest;
    }

    /** md5_pad: the state is the digest of the padded message */
    method Pad(ghost m: bytes)
      requires Tracks(m)
      modifies this
      ensures |Padded(m, n)| % 64 == 0 && state == Digest(f, init, Padded(m, n)) && n == old(n)
      ensures PaddedAs(m, n, Padded(m, n))
    {
      PaddedShape(m, n);
      if BUFLEN - i > 8 {
        LastBlock(m);
      } else {
        LastTwoBlocks(m);
      }
    }

    /** The padding fits the block that was begun */
    method LastBlock(ghost m: bytes)
      requires Tracks(m) && i + 8 < BUFLEN
      modifies this
      ensures |Padded(m, n)| % 64 == 0 && state == Digest(f, init, Padded(m, n)) && n == old(n)
    {
      var r := buf[..i];
      var block := r + [0x80] + Zeros(55 - |r|) + Low(n, 8);
      assert |block| == BUFLEN;
      PaddedShort(done, r, n, m);
      buf := block;
      Calc(block);
    }

    /** It needs one more block */
    method LastTwoBlocks(ghost m: bytes)
      requires Tracks(m) && BUFLEN <= i + 8
      modifies this
      ensures |Padded(m, n)| % 64 == 0 && state == Digest(f, init, Padded(m, n)) && n == old(n)
    {
      var r := buf[..i];
      var first, second := r + [0x80] + Zeros(63 - |r|), Zeros(56) + Low(n, 8);
      PaddedLong(done, r, n, m);
      buf := first;
      Calc(first);
      buf := second;
      Calc(second);
    }
  }

  lemma Slices(d: bytes, input: bytes, i: nat, j: nat, k: nat)
    requires i <= j <= k <= |input|
    ensures (d + input[i..j]) + input[j..k] == d + input[i..k]
    ensures input[j..|input|] == input[j..] && input[i..|input|] == input[i..]
  {
    assert input[i..j] + input[j..k] == input[i..k];
  }

  lemma Joined(d: bytes, r: bytes, input: bytes, gap: nat)
    requires gap <= |input|
    ensures (d + (r + input[..gap])) + input[gap..] == (d + r) + input && d + (r + input) == (d + r) + input
  {
    assert input == input[..gap] + input[gap..];
  }

  lemma RestOf(d: nat, r: nat)
    requires d % 64 == 0 && r < BUFLEN
    ensures (d + r) % 64 == r && Gap(d + r) == (119 - r) % 64
  {
  }

  /** The padding fits the last block */
  lemma PaddedShort(d: bytes, r: bytes, n: nat, m: bytes)
    requires |d| % 64 == 0 && |r| + 8 < BUFLEN && m == d + r
    ensures Padded(m, n) == d + (r + [0x80] + Zeros(55 - |r|) + Low(n, 8)) && |Padded(m, n)| % 64 == 0
  {
    RestOf(|d|, |r|);
    assert (119 - |r|) % 64 == 55 - |r|;
  }

  /** It needs one more block */
  lemma PaddedLong(d: bytes, r: bytes, n: nat, m: bytes)
    requires |d| % 64 == 0 && BUFLEN <= |r| + 8 && |r| < BUFLEN && m == d + r
    ensures Padded(m, n) == d + (r + [0x80] + Zeros(63 - |r|)) + (Zeros(56) + Low(n, 8)) && |Padded(m, n)| % 64 == 0
  {
    RestOf(|d|, |r|);
    assert (119 - |r|) % 64 == 119 - |r|;
    assert Zeros(119 - |r|) == Zeros(63 - |r|) + Zeros(56);
  }

  /** Any calls, then the padding: the digest of the padded message */
  method HashPieces<S>(f: Compress<S>, init: S, pieces: seq<bytes>) returns (s: S)
    requires forall j :: 0 <= j < |pieces| ==> |pieces[j]| < 0x2000_0000
    ensures var m := Concat(pieces); var p := Padded(m, 8 * |m| % 0x1_0000_0000_0000_0000);
      |p| % 64 == 0 && s == Digest(f, init, p)
  {
    var c := new Context(f, init);
    var j := 0;
    while j < |pieces|
      invariant j <= |pieces| && c.f == f && c.init == init
      invariant var m := Concat(pieces[..j]); c.Tracks(m) && c.n == 8 * |m| % 0x1_0000_0000_0000_0000
    {
      ghost var m := Concat(pieces[..j]);
      assert pieces[..j + 1][..j] == pieces[..j];
      CounterExact(|m|, |pieces[j]|);
      c.Loop(pieces[j], m);
      j := j + 1;
    }
    assert pieces[..|pieces|] == pieces;
    c.Pad(Concat(pieces));
    s := c.state;
  }

  /**
   However a message is cut into calls shorter than 2^29 bytes, the result is the last
   of the states that the blocks of its padded form p lead through.
   */
  method Hash<S>(f: Compress<S>, init: S, pieces: seq<bytes>) returns (s: S, ghost p: bytes, ghost ss: seq<S>)
    requires forall j :: 0 <= j < |pieces| ==> |pieces[j]| < 0x2000_0000
    ensures PaddedAs(Concat(pieces), 8 * |Concat(pieces)| % 0x1_0000_0000_0000_0000, p)
    ensures Folds(f, init, p, ss) && s == ss[|ss| - 1]
  {
    ghost var m := Concat(pieces);
    ghost var count: nat := 8 * |m| % 0x1_0000_0000_0000_0000;
    s := HashPieces(f, init, pieces);
    p := Padded(m, count);
    PaddedShape(m, count);
    ss := DigestFolds(f, init, p);
  }
}
