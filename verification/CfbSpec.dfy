/**
 Cipher feedback as section 13.9 of RFC 4880 describes it, for any block cipher,
 and the register machine that computes it one byte at a time.
 */
module CfbSpec {

  import opened Common
  import opened Bytes

  /**
   Block size, whether the second block is cut to two bytes, the cipher, the initial
   feedback register, and how a byte and a key byte are mixed. The code mixes with
   exclusive or; all that matters is that mixing twice gives the byte back.
   */
  datatype Mode = Mode(bs: nat, resync: bool, enc: bytes -> bytes, iv: bytes, mix: (byte, byte) -> byte)

  predicate Good(mo: Mode) {
    mo.bs >= 2 && |mo.iv| == mo.bs
  }

  /** The cipher applied to a block: always block_size bytes */
  function Block(mo: Mode, x: bytes): (e: bytes)
    requires Good(mo)
    ensures |e| == mo.bs
  {
    if |mo.enc(x)| == mo.bs then mo.enc(x) else mo.iv
  }

  ghost predicate SelfInverse(mix: (byte, byte) -> byte) {
    forall a: byte, k: byte {:trigger mix(mix(a, k), k)} :: mix(mix(a, k), k) == a
  }

  lemma Undone(mix: (byte, byte) -> byte, x: byte, k: byte)
    requires SelfInverse(mix)
    ensures mix(mix(x, k), k) == x
  {
  }

  /** As the code mixes */
  lemma XorSelfInverse()
    ensures SelfInverse(Xor)
  {
    forall a: byte, k: byte
      ensures Xor(Xor(a, k), k) == a
    {
      XorTwice(a, k);
    }
  }

  // ---------------------------------------------------------------- the reference

  /** Length of the block that starts at offset s */
  function Len(mo: Mode, s: nat): nat {
    if mo.resync && s == mo.bs then 2 else mo.bs
  }

  /** Where the block of the t-th byte starts */
  function Start(mo: Mode, t: nat): nat {
    if t == 0 then 0 else
      var s := Start(mo, t - 1); if t == s + Len(mo, s) then t else s
  }

  lemma {:induction false} StartWithin(mo: Mode, t: nat)
    requires Good(mo)
    ensures Start(mo, t) <= t < Start(mo, t) + Len(mo, Start(mo, t))
    ensures t < mo.bs ==> Start(mo, t) == 0
    ensures mo.bs <= t ==> Start(mo, t) >= mo.bs
    ensures mo.resync && mo.bs <= t < mo.bs + 2 ==> Start(mo, t) == mo.bs
    ensures mo.resync && mo.bs + 2 <= t ==> Start(mo, t) >= mo.bs + 2
  {
    if t > 0 {
      StartWithin(mo, t - 1);
    }
  }

  /** The block_size bytes before offset o of the ciphertext, the initial register standing before its start */
  function Window(mo: Mode, c: bytes, o: nat): bytes
    requires |mo.iv| == mo.bs && o <= |c|
  {
    (mo.iv + c)[o..o + mo.bs]
  }

  /** The key byte for the t-th byte, given at least the ciphertext before its block */
  function Key(mo: Mode, c: bytes, t: nat): byte
    requires Good(mo) && Start(mo, t) <= |c|
  {
    StartWithin(mo, t);
    Block(mo, Window(mo, c, Start(mo, t)))[t - Start(mo, t)]
  }

  /** Ciphertext of a whole message */
  function Encrypted(mo: Mode, p: bytes): (c: bytes)
    requires Good(mo)
    ensures |c| == |p|
  {
    if p == [] then [] else
      var t := |p| - 1;
      var c := Encrypted(mo, p[..t]);
      StartWithin(mo, t);
      c + [mo.mix(p[t], Key(mo, c, t))]
  }

  /** Plaintext of a whole message */
  function Decrypted(mo: Mode, c: bytes): (p: bytes)
    requires Good(mo)
    ensures |p| == |c|
  {
    if c == [] then [] else
      var t := |c| - 1;
      StartWithin(mo, t);
      Decrypted(mo, c[..t]) + [mo.mix(c[t], Key(mo, c, t))]
  }

  /** Only the ciphertext before the block matters */
  lemma KeyPrefix(mo: Mode, c: bytes, d: bytes, t: nat)
    requires Good(mo) && t <= |c| <= |d| && d[..|c|] == c
    ensures Start(mo, t) <= |c| && Key(mo, c, t) == Key(mo, d, t)
  {
    StartWithin(mo, t);
    WindowPrefix(mo, c, d, Start(mo, t));
  }

  lemma WindowPrefix(mo: Mode, c: bytes, d: bytes, s: nat)
    requires Good(mo) && s <= |c| <= |d| && d[..|c|] == c
    ensures Window(mo, c, s) == Window(mo, d, s)
  {
    var rest := d[|c|..];
    assert d == c + rest;
    assert mo.iv + d == (mo.iv + c) + rest;
  }

  lemma Last(p: bytes)
    requires p != []
    ensures p == p[..|p| - 1] + [p[|p| - 1]]
  {
  }

  /**
   Where blocks start: at the multiples of the block size; in resync mode after one
   block and after two bytes more, and from there on every block size.
   */
  lemma {:induction false} StartMultiple(mo: Mode, t: nat) returns (k: nat)
    requires Good(mo)
    ensures !mo.resync ==> Start(mo, t) == k * mo.bs
    ensures mo.resync && t >= mo.bs + 2 ==> Start(mo, t) == mo.bs + 2 + k * mo.bs
  {
    if t == 0 {
      k := 0;
    } else {
      StartWithin(mo, t - 1);
      k := StartMultiple(mo, t - 1);
      var s := Start(mo, t - 1);
      if t == mo.bs + 2 && mo.resync {
        k := 0;
      } else if t == s + Len(mo, s) {
        assert (k + 1) * mo.bs == k * mo.bs + mo.bs;
        k := k + 1;
      }
    }
  }

  lemma {:induction false} EncryptedTake(mo: Mode, p: bytes, n: nat)
    requires Good(mo) && n <= |p|
    ensures Encrypted(mo, p)[..n] == Encrypted(mo, p[..n])
    decreases |p|
  {
    if n < |p| {
      var t := |p| - 1;
      EncryptedTake(mo, p[..t], n);
      assert p[..t][..n] == p[..n] && Encrypted(mo, p)[..t] == Encrypted(mo, p[..t]);
    } else {
      assert p[..n] == p && Encrypted(mo, p)[..n] == Encrypted(mo, p);
    }
  }

  lemma {:induction false} DecryptedTake(mo: Mode, c: bytes, n: nat)
    requires Good(mo) && n <= |c|
    ensures Decrypted(mo, c)[..n] == Decrypted(mo, c[..n])
    decreases |c|
  {
    if n < |c| {
      var t := |c| - 1;
      DecryptedTake(mo, c[..t], n);
      assert c[..t][..n] == c[..n] && Decrypted(mo, c)[..t] == Decrypted(mo, c[..t]);
    } else {
      assert c[..n] == c && Decrypted(mo, c)[..n] == Decrypted(mo, c);
    }
  }

  /** The key byte of a whole ciphertext, by what lies before its block */
  lemma KeyIs(mo: Mode, c: bytes, t: nat)
    requires Good(mo) && t < |c|
    ensures var s := Start(mo, t); s <= t < s + mo.bs && Key(mo, c, t) == Block(mo, (mo.iv + c)[s..s + mo.bs])[t - s]
  {
    StartWithin(mo, t);
  }

  lemma EncryptedKey(mo: Mode, p: bytes, t: nat)
    requires Good(mo) && t < |p|
    ensures Start(mo, t) <= t && Encrypted(mo, p)[t] == mo.mix(p[t], Key(mo, Encrypted(mo, p), t))
  {
    StartWithin(mo, t);
    var c, d, e := Encrypted(mo, p), Encrypted(mo, p[..t]), Encrypted(mo, p[..t + 1]);
    EncryptedTake(mo, p, t);
    EncryptedTake(mo, p, t + 1);
    assert p[..t + 1][..t] == p[..t] && e[t] == c[..t + 1][t];
    KeyPrefix(mo, d, c, t);
  }

  lemma DecryptedKey(mo: Mode, c: bytes, t: nat)
    requires Good(mo) && t < |c|
    ensures Start(mo, t) <= t && Decrypted(mo, c)[t] == mo.mix(c[t], Key(mo, c, t))
  {
    StartWithin(mo, t);
    var p, q, d := Decrypted(mo, c), Decrypted(mo, c[..t + 1]), c[..t + 1];
    DecryptedTake(mo, c, t + 1);
    assert q[t] == p[..t + 1][t] && d[t] == c[t];
    KeyPrefix(mo, d, c, t);
  }

  /**
   Ciphertext byte t is the plaintext byte mixed with the byte at its place in the
   enciphered last block_size ciphertext bytes before its block.
   */
  lemma EncryptedAt(mo: Mode, p: bytes, t: nat)
    requires Good(mo) && t < |p|
    ensures var c, s := Encrypted(mo, p), Start(mo, t);
      && s <= t < s + mo.bs
      && var w := (mo.iv + c)[s..s + mo.bs]; (|mo.enc(w)| == mo.bs ==> c[t] == mo.mix(p[t], mo.enc(w)[t - s]))
  {
    EncryptedKey(mo, p, t);
    KeyIs(mo, Encrypted(mo, p), t);
  }

  /** Plaintext byte t in the same way */
  lemma DecryptedAt(mo: Mode, c: bytes, t: nat)
    requires Good(mo) && t < |c|
    ensures var s := Start(mo, t);
      && s <= t < s + mo.bs
      && var w := (mo.iv + c)[s..s + mo.bs]; (|mo.enc(w)| == mo.bs ==> Decrypted(mo, c)[t] == mo.mix(c[t], mo.enc(w)[t - s]))
  {
    DecryptedKey(mo, c, t);
    KeyIs(mo, c, t);
  }

  lemma DecryptedNext(mo: Mode, c: bytes, x: byte)
    requires Good(mo) && SelfInverse(mo.mix)
    ensures Start(mo, |c|) <= |c| && Decrypted(mo, c + [mo.mix(x, Key(mo, c, |c|))]) == Decrypted(mo, c) + [x]
  {
    StartWithin(mo, |c|);
    var k := Key(mo, c, |c|);
    var d := c + [mo.mix(x, k)];
    assert d[..|c|] == c;
    KeyPrefix(mo, c, d, |c|);
    Undone(mo.mix, x, k);
  }

  /** Decryption undoes encryption */
  lemma {:induction false} DecryptedEncrypted(mo: Mode, p: bytes)
    requires Good(mo) && SelfInverse(mo.mix)
    ensures Decrypted(mo, Encrypted(mo, p)) == p
  {
    if p != [] {
      var t := |p| - 1;
      DecryptedEncrypted(mo, p[..t]);
      DecryptedNext(mo, Encrypted(mo, p[..t]), p[t]);
      Last(p);
    }
  }

  // ---------------------------------------------------------------- the register machine

  datatype Registers = Registers(pos: nat, blockNo: nat, fr: bytes, fre: bytes, encbuf: bytes)

  predicate Shaped(mo: Mode, st: Registers) {
    |st.fr| == |st.fre| == |st.encbuf| == mo.bs && st.pos < mo.bs
  }

  predicate Short(mo: Mode, st: Registers) {
    mo.resync && st.blockNo == 2
  }

  /** A new block begins: its key bytes are computed */
  function Load(mo: Mode, st: Registers): Registers
    requires Good(mo)
  {
    st.(fre := Block(mo, st.fr), blockNo := if st.blockNo < 5 then st.blockNo + 1 else st.blockNo)
  }

  function Loaded(mo: Mode, st: Registers): Registers
    requires Good(mo)
  {
    if st.pos == 0 then Load(mo, st) else st
  }

  /** The output for a stretch of input inside one block */
  function Mixed(mo: Mode, st: Registers, ds: bytes): (out: bytes)
    requires st.pos + |ds| <= |st.fre|
    ensures |out| == |ds|
  {
    seq(|ds|, j requires 0 <= j < |ds| => mo.mix(ds[j], st.fre[st.pos + j]))
  }

  /** The ciphertext of a stretch: what comes in when decrypting, what goes out when encrypting */
  function Cipher(mo: Mode, st: Registers, ds: bytes, dec: bool): (c: bytes)
    requires st.pos + |ds| <= |st.fre|
    ensures |c| == |ds|
  {
    if dec then ds else Mixed(mo, st, ds)
  }

  /** The stretch is kept in encbuf */
  function Kept(mo: Mode, st: Registers, ds: bytes, dec: bool): Registers
    requires st.pos + |ds| <= |st.fre| == |st.encbuf|
  {
    st.(encbuf := st.encbuf[..st.pos] + Cipher(mo, st, ds, dec) + st.encbuf[st.pos + |ds|..], pos := st.pos + |ds|)
  }

  /** A block ends: the feedback register takes the last block_size ciphertext bytes */
  function Closed(mo: Mode, st: Registers): Registers
    requires |st.encbuf| == mo.bs >= 2
  {
    if Short(mo, st) && st.pos == 2 then st.(fr := st.encbuf[2..] + st.encbuf[..2], pos := 0)
    else if st.pos == mo.bs then st.(fr := st.encbuf, pos := 0)
    else st
  }

  /** Where the current block ends */
  function Limit(mo: Mode, st: Registers): nat {
    if Short(mo, st) then 2 else mo.bs
  }

  /** In or before a block that has room for a byte */
  predicate Ready(mo: Mode, st: Registers) {
    Good(mo) && Shaped(mo, st) && st.pos < Limit(mo, Loaded(mo, st))
  }

  function Step(mo: Mode, st: Registers, d: byte, dec: bool): (Registers, byte)
    requires Ready(mo, st)
  {
    var u := Loaded(mo, st);
    (Closed(mo, Kept(mo, u, [d], dec)), mo.mix(d, u.fre[u.pos]))
  }

  lemma StepReady(mo: Mode, st: Registers, d: byte, dec: bool)
    requires Ready(mo, st)
    ensures Ready(mo, Step(mo, st, d, dec).0)
  {
  }

  /** The machine on a string of bytes */
  function Feed(mo: Mode, st: Registers, ds: bytes, dec: bool): (r: (Registers, bytes))
    requires Ready(mo, st)
    ensures Ready(mo, r.0) && |r.1| == |ds|
    decreases |ds|
  {
    if ds == [] then (st, []) else
      var (t, o) := Step(mo, st, ds[0], dec);
      StepReady(mo, st, ds[0], dec);
      var (u, os) := Feed(mo, t, ds[1..], dec);
      (u, [o] + os)
  }

  lemma FeedCons(mo: Mode, st: Registers, d: byte, ds: bytes, dec: bool)
    requires Ready(mo, st)
    ensures Ready(mo, Step(mo, st, d, dec).0)
    ensures Feed(mo, st, [d] + ds, dec).0 == Feed(mo, Step(mo, st, d, dec).0, ds, dec).0
    ensures Feed(mo, st, [d] + ds, dec).1 == [Step(mo, st, d, dec).1] + Feed(mo, Step(mo, st, d, dec).0, ds, dec).1
  {
    StepReady(mo, st, d, dec);
    assert ([d] + ds)[1..] == ds;
  }

  lemma Cons(a: bytes)
    requires a != []
    ensures a == [a[0]] + a[1..]
  {
  }

  lemma Assoc(a: bytes, b: bytes, c: bytes)
    ensures (a + b) + c == a + (b + c)
  {
  }

  /** How the input is cut does not matter, for the registers */
  lemma {:induction false} FeedCut(mo: Mode, st: Registers, a: bytes, b: bytes, dec: bool)
    requires Ready(mo, st)
    ensures Feed(mo, Feed(mo, st, a, dec).0, b, dec).0 == Feed(mo, st, a + b, dec).0
    decreases |a|
  {
    if a == [] {
      assert a + b == b;
    } else {
      Cons(a);
      Assoc([a[0]], a[1..], b);
      FeedCons(mo, st, a[0], a[1..], dec);
      FeedCons(mo, st, a[0], a[1..] + b, dec);
      FeedCut(mo, Step(mo, st, a[0], dec).0, a[1..], b, dec);
    }
  }

  /** and for the output */
  lemma {:induction false} FeedCutOut(mo: Mode, st: Registers, a: bytes, b: bytes, dec: bool)
    requires Ready(mo, st)
    ensures Feed(mo, st, a, dec).1 + Feed(mo, Feed(mo, st, a, dec).0, b, dec).1 == Feed(mo, st, a + b, dec).1
    decreases |a|
  {
    if a == [] {
      assert a + b == b;
    } else {
      Cons(a);
      Assoc([a[0]], a[1..], b);
      FeedCons(mo, st, a[0], a[1..], dec);
      FeedCons(mo, st, a[0], a[1..] + b, dec);
      FeedCutOut(mo, Step(mo, st, a[0], dec).0, a[1..], b, dec);
      var t := Step(mo, st, a[0], dec);
      Assoc([t.1], Feed(mo, t.0, a[1..], dec).1, Feed(mo, Feed(mo, t.0, a[1..], dec).0, b, dec).1);
    }
  }
}
