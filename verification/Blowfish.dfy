/** Blowfish for any S-boxes and subkeys, and its chaining mode over blocks rewritten in place. */
module Blowfish {

  import opened Common
  import opened DesBits

  /** 32 bits */
  type word = w: bits | |w| == 32 witness Zero(32)

  /** Two words, as they lie in the data */
  datatype Block = Block(l: word, r: word)

  /** The function the S-boxes define, and the subkeys */
  datatype Key = Key(f: word -> word, p: seq<word>)

  const ROUNDS := 16

  predicate KeyOk(k: Key) {
    |k.p| == ROUNDS + 2
  }

  function XorW(a: word, b: word): word {
    Xor(a, b)
  }

  function XorB(a: Block, b: Block): Block {
    Block(XorW(a.l, b.l), XorW(a.r, b.r))
  }

  lemma XorBTwice(a: Block, b: Block)
    ensures XorB(b, XorB(b, a)) == a && XorB(XorB(a, b), b) == a && XorB(a, b) == XorB(b, a)
  {
    XorTwice(a.l, b.l);
    XorTwice(a.r, b.r);
    assert XorW(a.l, b.l) == XorW(b.l, a.l) && XorW(a.r, b.r) == XorW(b.r, a.r);
  }

  /** One round with a subkey */
  function Round(f: word -> word, p: word, b: Block): Block {
    var x := XorW(b.l, p); Block(XorW(f(x), b.r), x)
  }

  function Rounds(f: word -> word, ps: seq<word>, b: Block): Block {
    if ps == [] then b else Round(f, ps[|ps| - 1], Rounds(f, ps[..|ps| - 1], b))
  }

  /** The two last subkeys, and the halves put out swapped */
  function Finish(p: word, q: word, b: Block): Block {
    Block(XorW(b.r, q), XorW(b.l, p))
  }

  /** All rounds with the subkeys in the order ps */
  function Cipher(f: word -> word, ps: seq<word>, b: Block): Block
    requires |ps| >= 2
  {
    var n := |ps| - 2; Finish(ps[n], ps[n + 1], Rounds(f, ps[..n], b))
  }

  /** Where the backward rounds are when i forward rounds remain to be undone */
  function Behind(f: word -> word, ps: seq<word>, i: nat, b: Block): Block
    requires i + 2 <= |ps|
  {
    Finish(ps[i], ps[i + 1], Rounds(f, ps[..i], b))
  }

  /** A round with the later of two subkeys undoes one round and moves the subkeys one back */
  lemma RoundBack(f: word -> word, p: word, q: word, s: word, b: Block)
    ensures Round(f, s, Finish(q, s, Round(f, p, b))) == Finish(p, q, b)
  {
    var x := XorW(b.l, p);
    XorTwice(x, s);
    var y := f(x);
    assert XorW(y, XorW(XorW(y, b.r), q)) == XorW(b.r, q) by {
      assert forall i :: 0 <= i < 32 ==> (y[i] != ((y[i] != b.r[i]) != q[i])) == (b.r[i] != q[i]);
    }
  }

  lemma {:induction false} RoundsBack(f: word -> word, ps: seq<word>, j: nat, b: Block)
    requires j + 2 <= |ps|
    ensures Rounds(f, Rev(ps)[..j], Cipher(f, ps, b)) == Behind(f, ps, |ps| - 2 - j, b)
    decreases j
  {
    if j > 0 {
      RoundsBack(f, ps, j - 1, b);
      var i := |ps| - 2 - j;
      assert Rev(ps)[..j][..j - 1] == Rev(ps)[..j - 1];
      assert ps[..i + 1][..i] == ps[..i];
      RoundBack(f, ps[i], ps[i + 1], ps[i + 2], Rounds(f, ps[..i], b));
    }
  }

  /** The same rounds with the subkeys reversed undo the cipher */
  lemma CipherBack(f: word -> word, ps: seq<word>, b: Block)
    requires |ps| >= 2
    ensures Cipher(f, Rev(ps), Cipher(f, ps, b)) == b
  {
    var n, c, r := |ps| - 2, Cipher(f, ps, b), Rev(ps);
    RoundsBack(f, ps, n, b);
    BehindAll(f, ps, b);
    FinishTwice(ps[0], ps[1], b);
    CipherOf(f, r, c, ps[1], ps[0], Finish(ps[0], ps[1], b));
  }

  lemma BehindAll(f: word -> word, ps: seq<word>, b: Block)
    requires |ps| >= 2
    ensures Behind(f, ps, 0, b) == Finish(ps[0], ps[1], b)
  {
    assert ps[..0] == [];
  }

  lemma CipherOf(f: word -> word, r: seq<word>, c: Block, p: word, q: word, d: Block)
    requires |r| >= 2 && r[|r| - 2] == p && r[|r| - 1] == q && Rounds(f, r[..|r| - 2], c) == d
    ensures Cipher(f, r, c) == Finish(p, q, d)
  {
  }

  lemma FinishTwice(p: word, q: word, b: Block)
    ensures Finish(q, p, Finish(p, q, b)) == b
  {
    XorTwice(b.l, p);
    XorTwice(b.r, q);
  }

  // ---------------------------------------------------------------- the words a block runs through

  /** Each word is the S-box function of the one before it, mixed with the one before that and a subkey */
  ghost predicate WordStep(f: word -> word, ps: seq<word>, h: seq<word>, i: nat)
    requires 1 <= i < |ps| && i + 1 < |h|
  {
    h[i + 1] == XorW(XorW(f(h[i]), h[i - 1]), ps[i])
  }

  ghost predicate Words(f: word -> word, ps: seq<word>, b: Block, h: seq<word>) {
    && 2 <= |h| <= |ps| && h[0] == b.r && h[1] == XorW(b.l, ps[0])
    && forall i {:trigger WordStep(f, ps, h, i)} :: 1 <= i < |h| - 1 ==> WordStep(f, ps, h, i)
  }

  /** c is what the subkeys ps make of b: the last two words, the earlier one mixed with the last subkey */
  ghost predicate Enciphers(f: word -> word, ps: seq<word>, b: Block, c: Block) {
    exists h: seq<word> :: |h| == |ps| && Words(f, ps, b, h) && c == Block(XorW(h[|h| - 2], ps[|ps| - 1]), h[|h| - 1])
  }

  lemma {:induction false} RoundsWords(f: word -> word, ps: seq<word>, j: nat, b: Block) returns (h: seq<word>)
    requires j + 2 <= |ps|
    ensures |h| == j + 2 && Words(f, ps, b, h)
    ensures var r := Rounds(f, ps[..j], b); r.r == h[j] && XorW(r.l, ps[j]) == h[j + 1]
  {
    if j == 0 {
      h := [b.r, XorW(b.l, ps[0])];
    } else {
      var g := RoundsWords(f, ps, j - 1, b);
      assert ps[..j][..j - 1] == ps[..j - 1];
      h := NextWord(f, ps, b, g);
    }
  }

  lemma NextWord(f: word -> word, ps: seq<word>, b: Block, g: seq<word>) returns (h: seq<word>)
    requires |g| < |ps| && Words(f, ps, b, g)
    ensures |h| == |g| + 1 && h[..|g|] == g && Words(f, ps, b, h)
    ensures h[|g|] == XorW(XorW(f(g[|g| - 1]), g[|g| - 2]), ps[|g| - 1])
  {
    h := g + [XorW(XorW(f(g[|g| - 1]), g[|g| - 2]), ps[|g| - 1])];
    forall i | 1 <= i < |h| - 1
      ensures WordStep(f, ps, h, i)
    {
      assert i < |g| - 1 ==> WordStep(f, ps, g, i);
    }
  }

  lemma CipherWords(f: word -> word, ps: seq<word>, b: Block)
    requires |ps| >= 2
    ensures Enciphers(f, ps, b, Cipher(f, ps, b))
  {
    var h := RoundsWords(f, ps, |ps| - 2, b);
    assert Words(f, ps, b, h);
  }

  /** blowfish_encrypt */
  method Encrypt(k: Key, b: Block) returns (c: Block)
    requires KeyOk(k)
    ensures c == Cipher(k.f, k.p, b) && Enciphers(k.f, k.p, b, c)
  {
    CipherWords(k.f, k.p, b);
    var xl, xr := b.l, b.r;
    var n := 0;
    while n < ROUNDS
      invariant n <= ROUNDS && Block(xl, xr) == Rounds(k.f, k.p[..n], b)
    {
      assert k.p[..n + 1][..n] == k.p[..n];
      xl := XorW(xl, k.p[n]);
      xl, xr := XorW(k.f(xl), xr), xl;
      n := n + 1;
    }
    c := Block(XorW(xr, k.p[17]), XorW(xl, k.p[16]));
  }

  /** blowfish_decrypt */
  method Decrypt(k: Key, b: Block) returns (c: Block)
    requires KeyOk(k)
    ensures c == Cipher(k.f, Rev(k.p), b) && Enciphers(k.f, Rev(k.p), b, c)
  {
    CipherWords(k.f, Rev(k.p), b);
    var xl, xr := b.l, b.r;
    var n := 17;
    while n > 1
      invariant 1 <= n <= 17 && Block(xl, xr) == Rounds(k.f, Rev(k.p)[..17 - n], b)
    {
      assert Rev(k.p)[..18 - n][..17 - n] == Rev(k.p)[..17 - n];
      xl := XorW(xl, k.p[n]);
      xl, xr := XorW(k.f(xl), xr), xl;
      n := n - 1;
    }
    c := Block(XorW(xr, k.p[0]), XorW(xl, k.p[1]));
  }

  // ---------------------------------------------------------------- chaining

  /** Each block is mixed with the ciphertext before it, then enciphered */
  function Chained(k: Key, iv: Block, bs: seq<Block>): (cs: seq<Block>)
    requires KeyOk(k)
    ensures |cs| == |bs|
  {
    if bs == [] then [] else
      var n := |bs| - 1;
      var cs := Chained(k, iv, bs[..n]);
      cs + [Cipher(k.f, k.p, XorB(Last(iv, cs), bs[n]))]
  }

  /** The chaining value after ciphertext cs */
  function Last(iv: Block, cs: seq<Block>): Block {
    if cs == [] then iv else cs[|cs| - 1]
  }

  function Unchained(k: Key, iv: Block, cs: seq<Block>): (bs: seq<Block>)
    requires KeyOk(k)
    ensures |bs| == |cs|
  {
    if cs == [] then [] else
      var n := |cs| - 1;
      Unchained(k, iv, cs[..n]) + [XorB(Last(iv, cs[..n]), Cipher(k.f, Rev(k.p), cs[n]))]
  }

  /** Unchaining undoes chaining */
  lemma {:induction false} UnchainedChained(k: Key, iv: Block, bs: seq<Block>)
    requires KeyOk(k)
    ensures Unchained(k, iv, Chained(k, iv, bs)) == bs
  {
    if bs != [] {
      var n := |bs| - 1;
      var cs := Chained(k, iv, bs[..n]);
      UnchainedChained(k, iv, bs[..n]);
      assert Chained(k, iv, bs)[..n] == cs;
      CipherBack(k.f, k.p, XorB(Last(iv, cs), bs[n]));
      XorBTwice(bs[n], Last(iv, cs));
      assert bs == bs[..n] + [bs[n]];
    }
  }

  lemma ChainedSnoc(k: Key, iv: Block, bs: seq<Block>, b: Block) returns (c: Block)
    requires KeyOk(k)
    ensures c == Cipher(k.f, k.p, XorB(Last(iv, Chained(k, iv, bs)), b))
    ensures Chained(k, iv, bs + [b]) == Chained(k, iv, bs) + [c]
  {
    assert (bs + [b])[..|bs|] == bs;
    c := Cipher(k.f, k.p, XorB(Last(iv, Chained(k, iv, bs)), b));
  }

  lemma UnchainedSnoc(k: Key, iv: Block, cs: seq<Block>, c: Block) returns (b: Block)
    requires KeyOk(k)
    ensures b == XorB(Last(iv, cs), Cipher(k.f, Rev(k.p), c))
    ensures Unchained(k, iv, cs + [c]) == Unchained(k, iv, cs) + [b]
  {
    assert (cs + [c])[..|cs|] == cs;
    b := XorB(Last(iv, cs), Cipher(k.f, Rev(k.p), c));
  }

  lemma SnocCut(a: seq<Block>, b: seq<Block>)
    requires b != []
    ensures b == b[..|b| - 1] + [b[|b| - 1]] && a + b == (a + b[..|b| - 1]) + [b[|b| - 1]]
  {
  }

  /** Where the data is cut into calls does not matter, as the chaining value is carried over */
  lemma {:induction false} ChainedCut(k: Key, iv: Block, a: seq<Block>, b: seq<Block>)
    requires KeyOk(k)
    ensures Chained(k, iv, a + b) == Chained(k, iv, a) + Chained(k, Last(iv, Chained(k, iv, a)), b)
    decreases |b|
  {
    if b == [] {
      assert a + b == a;
    } else {
      var n := |b| - 1;
      ChainedCut(k, iv, a, b[..n]);
      SnocCut(a, b);
      ChainedStep(k, iv, a, b[..n], b[n]);
    }
  }

  lemma ChainedStep(k: Key, iv: Block, a: seq<Block>, b: seq<Block>, x: Block)
    requires KeyOk(k) && Chained(k, iv, a + b) == Chained(k, iv, a) + Chained(k, Last(iv, Chained(k, iv, a)), b)
    ensures Chained(k, iv, (a + b) + [x]) == Chained(k, iv, a) + Chained(k, Last(iv, Chained(k, iv, a)), b + [x])
  {
    var v := Last(iv, Chained(k, iv, a));
    LastCut(iv, Chained(k, iv, a), Chained(k, v, b));
    var c := ChainedSnoc(k, iv, a + b, x);
    var d := ChainedSnoc(k, v, b, x);
    Assoc(Chained(k, iv, a), Chained(k, v, b), [c]);
  }

  lemma Assoc(a: seq<Block>, b: seq<Block>, c: seq<Block>)
    ensures (a + b) + c == a + (b + c)
  {
  }

  lemma {:induction false} UnchainedCut(k: Key, iv: Block, a: seq<Block>, b: seq<Block>)
    requires KeyOk(k)
    ensures Unchained(k, iv, a + b) == Unchained(k, iv, a) + Unchained(k, Last(iv, a), b)
    decreases |b|
  {
    if b == [] {
      assert a + b == a;
    } else {
      var n := |b| - 1;
      UnchainedCut(k, iv, a, b[..n]);
      SnocCut(a, b);
      LastCut(iv, a, b[..n]);
      var c := UnchainedSnoc(k, iv, a + b[..n], b[n]);
      var d := UnchainedSnoc(k, Last(iv, a), b[..n], b[n]);
    }
  }

  lemma LastCut(iv: Block, a: seq<Block>, b: seq<Block>)
    ensures Last(iv, a + b) == Last(Last(iv, a), b)
  {
    assert b == [] ==> a + b == a;
  }

  /** Each ciphertext block is the enciphered mix of a block and the ciphertext before it */
  lemma ChainedBlocks(k: Key, iv: Block, bs: seq<Block>, i: nat)
    requires KeyOk(k) && i < |bs|
    ensures var cs := Chained(k, iv, bs); Enciphers(k.f, k.p, XorB(if i == 0 then iv else cs[i - 1], bs[i]), cs[i])
  {
    assert bs[..i + 1] + bs[i + 1..] == bs && bs[..i + 1] == bs[..i] + [bs[i]];
    ChainedCut(k, iv, bs[..i + 1], bs[i + 1..]);
    var c := ChainedSnoc(k, iv, bs[..i], bs[i]);
    var pre := Chained(k, iv, bs[..i]);
    assert i > 0 ==> Chained(k, iv, bs)[i - 1] == pre[i - 1];
    CipherWords(k.f, k.p, XorB(Last(iv, pre), bs[i]));
  }

  /** Each data block is the deciphered block mixed with the ciphertext before it */
  lemma UnchainedBlocks(k: Key, iv: Block, cs: seq<Block>, i: nat) returns (d: Block)
    requires KeyOk(k) && i < |cs|
    ensures Enciphers(k.f, Rev(k.p), cs[i], d) && Unchained(k, iv, cs)[i] == XorB(if i == 0 then iv else cs[i - 1], d)
  {
    assert cs[..i + 1] + cs[i + 1..] == cs && cs[..i + 1] == cs[..i] + [cs[i]];
    UnchainedCut(k, iv, cs[..i + 1], cs[i + 1..]);
    var b := UnchainedSnoc(k, iv, cs[..i], cs[i]);
    d := Cipher(k.f, Rev(k.p), cs[i]);
    CipherWords(k.f, Rev(k.p), cs[i]);
  }

  lemma ChainedNext(k: Key, iv: Block, bs: seq<Block>, i: nat)
    requires KeyOk(k) && i < |bs|
    ensures var cs := Chained(k, iv, bs[..i]); Chained(k, iv, bs[..i + 1]) == cs + [Cipher(k.f, k.p, XorB(Last(iv, cs), bs[i]))]
  {
    assert bs[..i + 1][..i] == bs[..i];
  }

  lemma UnchainedNext(k: Key, iv: Block, cs: seq<Block>, i: nat)
    requires KeyOk(k) && i < |cs|
    ensures Unchained(k, iv, cs[..i + 1]) == Unchained(k, iv, cs[..i]) + [XorB(Last(iv, cs[..i]), Cipher(k.f, Rev(k.p), cs[i]))]
  {
    assert cs[..i + 1][..i] == cs[..i];
  }

  /** The blowfish context: key and chaining value */
  class Context {
    const key: Key
    var iv: Block

    constructor (k: Key, start: Block)
      requires KeyOk(k)
      ensures key == k && iv == start
    {
      key, iv := k, start;
    }

    /** blowfish_encrypt_cbc, in place */
    method EncryptCbc(blk: array<Block>)
      requires KeyOk(key)
      modifies this`iv, blk
      ensures blk[..] == Chained(key, old(iv), old(blk[..])) && iv == Last(old(iv), blk[..])
    {
      ghost var was := blk[..];
      var v, i := iv, 0;
      while i < blk.Length
        invariant i <= blk.Length && iv == old(iv) && blk[i..] == was[i..]
        invariant blk[..i] == Chained(key, old(iv), was[..i]) && v == Last(old(iv), blk[..i])
      {
        v := EncryptNext(blk, i, v, old(iv), was);
        i := i + 1;
      }
      assert was[..blk.Length] == was && blk[..blk.Length] == blk[..];
      iv := v;
    }

    method EncryptNext(blk: array<Block>, i: nat, v: Block, ghost start: Block, ghost was: seq<Block>) returns (next: Block)
      requires KeyOk(key) && i < blk.Length == |was| && blk[i..] == was[i..]
      requires blk[..i] == Chained(key, start, was[..i]) && v == Last(start, blk[..i])
      modifies blk
      ensures blk[i + 1..] == was[i + 1..]
      ensures blk[..i + 1] == Chained(key, start, was[..i + 1]) && next == Last(start, blk[..i + 1])
    {
      assert blk[i] == was[i] by { assert blk[i..][0] == was[i..][0]; }
      assert blk[i + 1..] == blk[i..][1..] == was[i..][1..] == was[i + 1..];
      ChainedNext(key, start, was, i);
      next := Encrypt(key, XorB(v, blk[i]));
      ghost var done := blk[..i];
      blk[i] := next;
      assert blk[..i + 1] == done + [next];
    }

    /** blowfish_decrypt_cbc, in place */
    method DecryptCbc(blk: array<Block>)
      requires KeyOk(key)
      modifies this`iv, blk
      ensures blk[..] == Unchained(key, old(iv), old(blk[..])) && iv == Last(old(iv), old(blk[..]))
    {
      ghost var was := blk[..];
      var v, i := iv, 0;
      while i < blk.Length
        invariant i <= blk.Length && iv == old(iv) && blk[i..] == was[i..]
        invariant blk[..i] == Unchained(key, old(iv), was[..i]) && v == Last(old(iv), was[..i])
      {
        v := DecryptNext(blk, i, v, old(iv), was);
        i := i + 1;
      }
      assert was[..blk.Length] == was && blk[..blk.Length] == blk[..];
      iv := v;
    }

    method DecryptNext(blk: array<Block>, i: nat, v: Block, ghost start: Block, ghost was: seq<Block>) returns (next: Block)
      requires KeyOk(key) && i < blk.Length == |was| && blk[i..] == was[i..]
      requires blk[..i] == Unchained(key, start, was[..i]) && v == Last(start, was[..i])
      modifies blk
      ensures blk[i + 1..] == was[i + 1..]
      ensures blk[..i + 1] == Unchained(key, start, was[..i + 1]) && next == Last(start, was[..i + 1])
    {
      next := blk[i];
      assert next == was[i] by { assert blk[i..][0] == was[i..][0]; }
      assert blk[i + 1..] == blk[i..][1..] == was[i..][1..] == was[i + 1..];
      UnchainedNext(key, start, was, i);
      var y := Decrypt(key, next);
      ghost var done := blk[..i];
      blk[i] := XorB(v, y);
      assert blk[..i + 1] == done + [XorB(v, y)];
    }
  }

  /** One call on a buffer of its own */
  method EncryptPiece(c: Context, piece: seq<Block>) returns (out: seq<Block>)
    requires KeyOk(c.key)
    modifies c`iv
    ensures out == Chained(c.key, old(c.iv), piece) && c.iv == Last(old(c.iv), out)
  {
    var blk := new Block[|piece|](i requires 0 <= i < |piece| => piece[i]);
    assert blk[..] == piece;
    c.EncryptCbc(blk);
    out := blk[..];
  }

  method DecryptPiece(c: Context, piece: seq<Block>) returns (out: seq<Block>)
    requires KeyOk(c.key)
    modifies c`iv
    ensures out == Unchained(c.key, old(c.iv), piece) && c.iv == Last(old(c.iv), piece)
  {
    var blk := new Block[|piece|](i requires 0 <= i < |piece| => piece[i]);
    assert blk[..] == piece;
    c.DecryptCbc(blk);
    out := blk[..];
  }

  /** Encryption over any calls: the ciphertext and the chaining value of the joined pieces */
  method EncryptAll(k: Key, iv: Block, pieces: seq<seq<Block>>) returns (out: seq<Block>, last: Block)
    requires KeyOk(k)
    ensures out == Chained(k, iv, Concat(pieces)) && last == Last(iv, out)
  {
    var c := new Context(k, iv);
    out := [];
    var j := 0;
    while j < |pieces|
      invariant j <= |pieces| && c.key == k && fresh(c)
      invariant out == Chained(k, iv, Concat(pieces[..j])) && c.iv == Last(iv, out)
    {
      ConcatNext(pieces, j);
      ChainedCut(k, iv, Concat(pieces[..j]), pieces[j]);
      var more := EncryptPiece(c, pieces[j]);
      LastCut(iv, out, more);
      out := out + more;
      j := j + 1;
    }
    assert pieces[..|pieces|] == pieces;
    last := c.iv;
  }

  /** Decryption over any calls */
  method DecryptAll(k: Key, iv: Block, pieces: seq<seq<Block>>) returns (out: seq<Block>, last: Block)
    requires KeyOk(k)
    ensures out == Unchained(k, iv, Concat(pieces)) && last == Last(iv, Concat(pieces))
  {
    var c := new Context(k, iv);
    out := [];
    var j := 0;
    while j < |pieces|
      invariant j <= |pieces| && c.key == k && fresh(c)
      invariant out == Unchained(k, iv, Concat(pieces[..j])) && c.iv == Last(iv, Concat(pieces[..j]))
    {
      ConcatNext(pieces, j);
      UnchainedCut(k, iv, Concat(pieces[..j]), pieces[j]);
      LastCut(iv, Concat(pieces[..j]), pieces[j]);
      var more := DecryptPiece(c, pieces[j]);
      out := out + more;
      j := j + 1;
    }
    assert pieces[..|pieces|] == pieces;
    last := c.iv;
  }

  /**
   Data encrypted over any calls, and the ciphertext cut anew and decrypted over
   those calls: the data comes back, and both sides end with the same chaining value.
   */
  method ThereAndBack(k: Key, iv: Block, pieces: seq<seq<Block>>, at: seq<nat>)
    returns (sent: seq<Block>, back: seq<Block>, last: Block, last': Block)
    requires KeyOk(k)
    ensures sent == Chained(k, iv, Concat(pieces)) && back == Concat(pieces)
    ensures last == last' == Last(iv, sent)
  {
    sent, last := EncryptAll(k, iv, pieces);
    ConcatCut(sent, at);
    UnchainedChained(k, iv, Concat(pieces));
    back, last' := DecryptAll(k, iv, Cut(sent, at));
  }
}
