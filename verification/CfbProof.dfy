/** The register machine computes the reference: its registers against the ciphertext so far. */
module CfbProof {

  import opened Common
  import opened Bytes
  import opened CfbSpec

  /** How many blocks were begun, as far as the two-byte block needs it */
  predicate Counted(mo: Mode, blockNo: nat, t: nat) {
    && (t == 0 ==> blockNo == 0)
    && (0 < t <= mo.bs ==> blockNo == 1)
    && (mo.bs < t <= mo.bs + 2 ==> blockNo == 2)
    && (t > mo.bs + 2 ==> 3 <= blockNo)
  }

  /**
   The registers after ciphertext c. At a block boundary fr holds the last
   block_size ciphertext bytes; inside a block encbuf holds what of it is done, and
   in the two-byte block the rest of the block before.
   */
  ghost predicate Tracks(mo: Mode, st: Registers, c: bytes) {
    var t, s := |c|, Start(mo, |c|);
    && Good(mo) && Shaped(mo, st) && s <= t && st.pos == t - s
    && st.fr == Window(mo, c, s)
    && (st.pos > 0 ==> st.fre == Block(mo, st.fr) && st.encbuf[..st.pos] == c[s..])
    && (mo.resync ==> Counted(mo, st.blockNo, t))
    && (mo.resync && mo.bs <= t < mo.bs + 2 ==> st.encbuf[t - mo.bs..] == c[t - mo.bs..mo.bs])
  }

  lemma Initially(mo: Mode, st: Registers)
    requires Good(mo) && Shaped(mo, st) && st.pos == 0 && st.blockNo == 0 && st.fr == mo.iv
    ensures Tracks(mo, st, [])
  {
    assert mo.iv + [] == mo.iv;
  }

  lemma TracksReady(mo: Mode, st: Registers, c: bytes)
    requires Tracks(mo, st, c)
    ensures Ready(mo, st)
    ensures Limit(mo, Loaded(mo, st)) == Len(mo, Start(mo, |c|))
  {
    StartWithin(mo, |c|);
  }

  /** The byte that comes out is the input mixed with the reference key */
  lemma StepKey(mo: Mode, st: Registers, c: bytes, d: byte, dec: bool)
    requires Tracks(mo, st, c) && Ready(mo, st)
    ensures Start(mo, |c|) <= |c| && Step(mo, st, d, dec).1 == mo.mix(d, Key(mo, c, |c|))
  {
    StartWithin(mo, |c|);
  }

  /** The ciphertext byte of a step */
  function CipherByte(mo: Mode, st: Registers, d: byte, dec: bool): byte
    requires Ready(mo, st)
  {
    if dec then d else Step(mo, st, d, dec).1
  }

  lemma WindowNext(mo: Mode, c: bytes, x: byte, s: nat)
    requires Good(mo) && s <= |c|
    ensures Window(mo, c + [x], s) == Window(mo, c, s)
  {
    assert mo.iv + (c + [x]) == (mo.iv + c) + [x];
  }

  /** The last block_size bytes are the end of the ciphertext, once there are that many */
  lemma WindowEnd(mo: Mode, c: bytes)
    requires Good(mo) && |c| >= mo.bs
    ensures Window(mo, c, |c|) == c[|c| - mo.bs..]
  {
  }

  /** The registers with one more byte kept, before the block is closed */
  ghost predicate Partial(mo: Mode, k: Registers, c: bytes, s: nat) {
    && Good(mo) && |k.encbuf| == |k.fre| == |k.fr| == mo.bs && s < |c| && k.pos == |c| - s && k.pos <= mo.bs
    && k.fr == Window(mo, c, s) && k.fre == Block(mo, k.fr) && k.encbuf[..k.pos] == c[s..]
  }

  lemma Overwritten(e: bytes, p: nat, x: byte)
    requires p < |e|
    ensures var f := e[..p] + [x] + e[p + 1..]; f[..p + 1] == e[..p] + [x] && f[p + 1..] == e[p + 1..] && |f| == |e|
  {
  }

  lemma Drop(c: bytes, x: byte, s: nat)
    requires s <= |c|
    ensures (c + [x])[s..] == c[s..] + [x]
  {
  }

  lemma KeptShape(mo: Mode, u: Registers, d: byte, dec: bool, x: byte)
    requires u.pos < |u.fre| == |u.encbuf| && x == if dec then d else mo.mix(d, u.fre[u.pos])
    ensures var k := Kept(mo, u, [d], dec);
      && k == u.(encbuf := k.encbuf, pos := u.pos + 1) && |k.encbuf| == |u.encbuf|
      && k.encbuf[..k.pos] == u.encbuf[..u.pos] + [x] && k.encbuf[k.pos..] == u.encbuf[k.pos..]
  {
    assert Cipher(mo, u, [d], dec) == [x];
    Overwritten(u.encbuf, u.pos, x);
  }

  lemma KeptPartial(mo: Mode, st: Registers, c: bytes, d: byte, dec: bool)
    requires Tracks(mo, st, c) && Ready(mo, st)
    ensures var k, x := Kept(mo, Loaded(mo, st), [d], dec), CipherByte(mo, st, d, dec);
      Partial(mo, k, c + [x], Start(mo, |c|)) && k.encbuf[k.pos..] == st.encbuf[k.pos..]
  {
    var s, x := Start(mo, |c|), CipherByte(mo, st, d, dec);
    StartWithin(mo, |c|);
    KeptShape(mo, Loaded(mo, st), d, dec, x);
    WindowNext(mo, c, x, s);
    Drop(c, x, s);
    assert st.pos == 0 ==> c[s..] == [] && st.encbuf[..0] == [];
  }

  lemma LoadedCounted(mo: Mode, st: Registers, c: bytes)
    requires Tracks(mo, st, c) && mo.resync && Ready(mo, st)
    ensures Counted(mo, Loaded(mo, st).blockNo, |c| + 1)
    ensures Short(mo, Loaded(mo, st)) <==> Start(mo, |c|) == mo.bs
  {
    StartWithin(mo, |c|);
  }

  /** Inside a block */
  lemma Inside(mo: Mode, k: Registers, c: bytes, s: nat)
    requires Good(mo) && Partial(mo, k, c, s) && Start(mo, |c|) == s && k.pos < Limit(mo, k)
    requires mo.resync ==> Counted(mo, k.blockNo, |c|)
    requires mo.resync && mo.bs <= |c| < mo.bs + 2 ==> k.encbuf[|c| - mo.bs..] == c[|c| - mo.bs..mo.bs]
    ensures Tracks(mo, Closed(mo, k), c)
  {
  }

  /** A full block ends */
  lemma CloseFull(mo: Mode, k: Registers, c: bytes, s: nat)
    requires Good(mo) && Partial(mo, k, c, s) && Start(mo, |c|) == |c| && !Short(mo, k) && k.pos == mo.bs
    requires mo.resync ==> Counted(mo, k.blockNo, |c|)
    ensures Tracks(mo, Closed(mo, k), c)
  {
    WindowEnd(mo, c);
    assert k.encbuf[..mo.bs] == k.encbuf;
    assert c[0..] == c;
  }

  /** The two-byte block ends: the register is shifted by two */
  lemma CloseShort(mo: Mode, k: Registers, c: bytes)
    requires Good(mo) && mo.resync && Partial(mo, k, c, mo.bs) && Start(mo, |c|) == |c| == mo.bs + 2 && Short(mo, k)
    requires k.encbuf[2..] == c[2..mo.bs]
    ensures Tracks(mo, Closed(mo, k), c)
  {
    WindowEnd(mo, c);
    assert c[2..] == c[2..mo.bs] + c[mo.bs..];
  }

  lemma CloseTracks(mo: Mode, k: Registers, c: bytes, s: nat)
    requires Good(mo) && Partial(mo, k, c, s) && k.pos <= Limit(mo, k) == Len(mo, s)
    requires Start(mo, |c|) == if k.pos == Len(mo, s) then |c| else s
    requires mo.resync ==> Counted(mo, k.blockNo, |c|) && (Short(mo, k) <==> s == mo.bs)
    requires mo.resync && mo.bs <= |c| <= mo.bs + 2 ==> k.encbuf[|c| - mo.bs..] == c[|c| - mo.bs..mo.bs]
    ensures Tracks(mo, Closed(mo, k), c)
  {
    if k.pos < Limit(mo, k) {
      Inside(mo, k, c, s);
    } else if Short(mo, k) {
      CloseShort(mo, k, c);
    } else {
      CloseFull(mo, k, c, s);
    }
  }

  /** One step keeps the registers in line with the ciphertext */
  lemma StepTracks(mo: Mode, st: Registers, c: bytes, d: byte, dec: bool)
    requires Tracks(mo, st, c) && Ready(mo, st)
    ensures Tracks(mo, Step(mo, st, d, dec).0, c + [CipherByte(mo, st, d, dec)])
  {
    var k, x := Kept(mo, Loaded(mo, st), [d], dec), CipherByte(mo, st, d, dec);
    KeptPartial(mo, st, c, d, dec);
    TailKept(mo, st, k, c, x);
    KeptCounted(mo, st, c, k);
    CloseTracks(mo, k, c + [x], Start(mo, |c|));
  }

  lemma KeptCounted(mo: Mode, st: Registers, c: bytes, k: Registers)
    requires Tracks(mo, st, c) && Ready(mo, st) && k.pos == |c| + 1 - Start(mo, |c|) && k.blockNo == Loaded(mo, st).blockNo
    ensures var s := Start(mo, |c|);
      && k.pos <= Limit(mo, k) == Len(mo, s) && Start(mo, |c| + 1) == (if k.pos == Len(mo, s) then |c| + 1 else s)
      && (mo.resync ==> Counted(mo, k.blockNo, |c| + 1) && (Short(mo, k) <==> s == mo.bs))
  {
    TracksReady(mo, st, c);
    StartWithin(mo, |c|);
    if mo.resync {
      LoadedCounted(mo, st, c);
    }
  }

  lemma DropOne(e: bytes, c: bytes, x: byte, i: nat, j: nat)
    requires i < |e| == j <= |c| && e[i..] == c[i..j]
    ensures e[i + 1..] == (c + [x])[i + 1..j]
  {
    assert e[i + 1..] == e[i..][1..];
    assert (c + [x])[i + 1..j] == c[i..j][1..];
  }

  /** What the two-byte block leaves of the block before it */
  lemma TailKept(mo: Mode, st: Registers, k: Registers, c: bytes, x: byte)
    requires Tracks(mo, st, c) && |k.encbuf| == mo.bs && k.pos <= mo.bs && k.pos == |c| + 1 - Start(mo, |c|)
    requires k.encbuf[k.pos..] == st.encbuf[k.pos..] && k.encbuf[..k.pos] == (c + [x])[Start(mo, |c|)..]
    ensures var t := |c| + 1; mo.resync && mo.bs <= t <= mo.bs + 2 ==> k.encbuf[t - mo.bs..] == (c + [x])[t - mo.bs..mo.bs]
  {
    var t := |c| + 1;
    StartWithin(mo, |c|);
    if mo.resync && mo.bs < t <= mo.bs + 2 {
      assert k.pos == t - mo.bs;
      DropOne(st.encbuf, c, x, t - 1 - mo.bs, mo.bs);
    } else if mo.resync && t == mo.bs {
      assert k.encbuf == k.encbuf[..mo.bs];
      assert (c + [x])[0..] == c + [x] == (c + [x])[0..mo.bs];
    }
  }

  // ---------------------------------------------------------------- whole streams

  lemma FeedOne(mo: Mode, st: Registers, d: byte, dec: bool)
    requires Ready(mo, st)
    ensures Feed(mo, st, [d], dec).0 == Step(mo, st, d, dec).0 && Feed(mo, st, [d], dec).1 == [Step(mo, st, d, dec).1]
  {
    FeedCons(mo, st, d, [], dec);
    assert [d] + [] == [d];
  }

  /** One more byte */
  lemma FeedSnoc(mo: Mode, st: Registers, ds: bytes, d: byte, dec: bool)
    requires Ready(mo, st)
    ensures var r := Feed(mo, st, ds, dec);
      && Feed(mo, st, ds + [d], dec).0 == Step(mo, r.0, d, dec).0
      && Feed(mo, st, ds + [d], dec).1 == r.1 + [Step(mo, r.0, d, dec).1]
  {
    FeedCut(mo, st, ds, [d], dec);
    FeedCutOut(mo, st, ds, [d], dec);
    FeedOne(mo, Feed(mo, st, ds, dec).0, d, dec);
  }

  lemma EncryptedNext(mo: Mode, p: bytes, d: byte)
    requires Good(mo)
    ensures Start(mo, |p|) <= |p| && Encrypted(mo, p + [d]) == Encrypted(mo, p) + [mo.mix(d, Key(mo, Encrypted(mo, p), |p|))]
  {
    var q := p + [d];
    assert q[..|p|] == p && q[|p|] == d;
    EncryptedLast(mo, q);
  }

  lemma EncryptedLast(mo: Mode, q: bytes)
    requires Good(mo) && q != []
    ensures var n := |q| - 1; var c := Encrypted(mo, q[..n]); Start(mo, n) <= n && Encrypted(mo, q) == c + [mo.mix(q[n], Key(mo, c, n))]
  {
    StartWithin(mo, |q| - 1);
  }

  lemma DecryptedLast(mo: Mode, c: bytes)
    requires Good(mo) && c != []
    ensures var n := |c| - 1; Start(mo, n) <= n && Decrypted(mo, c) == Decrypted(mo, c[..n]) + [mo.mix(c[n], Key(mo, c, n))]
  {
    StartWithin(mo, |c| - 1);
  }

  lemma DecryptedSnoc(mo: Mode, c: bytes, d: byte)
    requires Good(mo)
    ensures Start(mo, |c|) <= |c| && Decrypted(mo, c + [d]) == Decrypted(mo, c) + [mo.mix(d, Key(mo, c, |c|))]
  {
    var e := c + [d];
    assert e[..|c|] == c && e[|c|] == d;
    DecryptedLast(mo, e);
    KeyPrefix(mo, c, e, |c|);
  }

  /** Fed with more plaintext, the machine puts out the next ciphertext of the whole message */
  lemma {:induction false} FeedEncrypts(mo: Mode, st: Registers, p: bytes, ds: bytes)
    requires Good(mo) && Tracks(mo, st, Encrypted(mo, p)) && Ready(mo, st)
    ensures var r := Feed(mo, st, ds, false);
      Encrypted(mo, p) + r.1 == Encrypted(mo, p + ds) && Tracks(mo, r.0, Encrypted(mo, p + ds))
    decreases |ds|
  {
    if ds == [] {
      assert p + ds == p && Encrypted(mo, p) + [] == Encrypted(mo, p);
    } else {
      var n := |ds| - 1;
      var a, d := ds[..n], ds[n];
      FeedEncrypts(mo, st, p, a);
      Last(ds);
      FeedSnoc(mo, st, a, d, false);
      var r := Feed(mo, st, a, false);
      StepKey(mo, r.0, Encrypted(mo, p + a), d, false);
      StepTracks(mo, r.0, Encrypted(mo, p + a), d, false);
      EncryptedNext(mo, p + a, d);
      Assoc(p, a, [d]);
      Assoc(Encrypted(mo, p), r.1, [Step(mo, r.0, d, false).1]);
    }
  }

  /** Fed with more ciphertext, it puts out the next plaintext */
  lemma {:induction false} FeedDecrypts(mo: Mode, st: Registers, c: bytes, ds: bytes)
    requires Good(mo) && Tracks(mo, st, c) && Ready(mo, st)
    ensures var r := Feed(mo, st, ds, true);
      Decrypted(mo, c) + r.1 == Decrypted(mo, c + ds) && Tracks(mo, r.0, c + ds)
    decreases |ds|
  {
    if ds == [] {
      assert c + ds == c && Decrypted(mo, c) + [] == Decrypted(mo, c);
    } else {
      var n := |ds| - 1;
      var a, d := ds[..n], ds[n];
      FeedDecrypts(mo, st, c, a);
      Last(ds);
      FeedSnoc(mo, st, a, d, true);
      var r := Feed(mo, st, a, true);
      StepKey(mo, r.0, c + a, d, true);
      StepTracks(mo, r.0, c + a, d, true);
      DecryptedSnoc(mo, c + a, d);
      Assoc(c, a, [d]);
      Assoc(Decrypted(mo, c), r.1, [Step(mo, r.0, d, true).1]);
    }
  }

  // ---------------------------------------------------------------- stretches inside one block

  lemma MixedSnoc(mo: Mode, u: Registers, a: bytes, d: byte)
    requires u.pos + |a| + 1 <= |u.fre|
    ensures Mixed(mo, u, a + [d]) == Mixed(mo, u, a) + [mo.mix(d, u.fre[u.pos + |a|])]
  {
  }

  lemma CipherSnoc(mo: Mode, u: Registers, a: bytes, d: byte, dec: bool)
    requires u.pos + |a| + 1 <= |u.fre| == |u.encbuf|
    ensures Cipher(mo, u, a + [d], dec) == Cipher(mo, u, a, dec) + Cipher(mo, Kept(mo, u, a, dec), [d], dec)
  {
    MixedSnoc(mo, u, a, d);
    var v := Kept(mo, u, a, dec);
    assert v.fre == u.fre && v.pos == u.pos + |a|;
    assert Mixed(mo, v, [d]) == [mo.mix(d, u.fre[u.pos + |a|])];
  }

  lemma KeptSnoc(mo: Mode, u: Registers, a: bytes, d: byte, dec: bool)
    requires u.pos + |a| + 1 <= |u.fre| == |u.encbuf|
    ensures Kept(mo, Kept(mo, u, a, dec), [d], dec) == Kept(mo, u, a + [d], dec)
  {
    CipherSnoc(mo, u, a, d, dec);
    KeptSeq(u.encbuf, u.pos, Cipher(mo, u, a, dec), Cipher(mo, Kept(mo, u, a, dec), [d], dec));
  }

  /** A step after a stretch that did not fill the block */
  lemma StretchStep(mo: Mode, u: Registers, a: bytes, d: byte, dec: bool)
    requires Good(mo) && Shaped(mo, u) && a != [] && u.pos + |a| < Limit(mo, u)
    ensures var v := Kept(mo, u, a, dec);
      && Closed(mo, v) == v && Ready(mo, v) && Step(mo, v, d, dec).1 == mo.mix(d, u.fre[u.pos + |a|])
      && Step(mo, v, d, dec).0 == Closed(mo, Kept(mo, u, a + [d], dec))
  {
    KeptSnoc(mo, u, a, d, dec);
    var v := Kept(mo, u, a, dec);
    assert v.pos == u.pos + |a| && |v.encbuf| == mo.bs;
    assert Loaded(mo, v) == v;
  }

  lemma KeptSeq(e: bytes, p: nat, a: bytes, b: bytes)
    requires p + |a| + |b| <= |e|
    ensures var f := e[..p] + a + e[p + |a|..];
      f[..p + |a|] + b + f[p + |a| + |b|..] == e[..p] + (a + b) + e[p + |a| + |b|..]
  {
  }

  /** Bytes that stay inside one block are mixed in one go */
  lemma {:induction false} FeedStretch(mo: Mode, st: Registers, ds: bytes, dec: bool)
    requires Ready(mo, st) && ds != [] && st.pos + |ds| <= Limit(mo, Loaded(mo, st))
    ensures var u := Loaded(mo, st); Feed(mo, st, ds, dec).0 == Closed(mo, Kept(mo, u, ds, dec)) && Feed(mo, st, ds, dec).1 == Mixed(mo, u, ds)
    decreases |ds|
  {
    var u, n := Loaded(mo, st), |ds| - 1;
    if n == 0 {
      FeedOne(mo, st, ds[0], dec);
      assert ds == [ds[0]];
    } else {
      var a, d := ds[..n], ds[n];
      FeedStretch(mo, st, a, dec);
      Last(ds);
      FeedSnoc(mo, st, a, d, dec);
      MixedSnoc(mo, u, a, d);
      StretchStep(mo, u, a, d, dec);
    }
  }

  /** The machine's counters tell when the ciphertext is exactly one block long */
  lemma AtFirstBoundary(mo: Mode, st: Registers, c: bytes)
    requires Tracks(mo, st, c) && mo.resync
    ensures st.pos == 0 && st.blockNo == 1 <==> |c| == mo.bs
  {
    StartWithin(mo, |c|);
  }

  /** At a block boundary, also after the two-byte block, fr holds the last block_size ciphertext bytes */
  lemma FeedbackAtBoundary(mo: Mode, st: Registers, c: bytes)
    requires Tracks(mo, st, c) && st.pos == 0 && |c| >= mo.bs
    ensures st.fr == c[|c| - mo.bs..]
  {
    WindowEnd(mo, c);
  }
}
