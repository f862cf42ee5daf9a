/** The stream context as the code keeps it, and its loops over blocks. */
module Cfb {

  import opened Common
  import opened Bytes
  import opened CfbSpec
  import opened CfbProof

  function Min(a: nat, b: nat): nat {
    if a < b then a else b
  }

  /** How much of n offered bytes one call of the mixing function takes into the block */
  function Taken(mo: Mode, u: Registers, n: nat): nat
    requires u.pos <= Limit(mo, u)
  {
    Min(n, Limit(mo, u) - u.pos)
  }

  /** The call that is offered one byte at the start of the two-byte block, and then reports that it took none */
  predicate Stuck(mo: Mode, u: Registers, n: nat) {
    Short(mo, u) && u.pos == 0 && n == 1
  }

  /** The registers and the output after feeding ds */
  ghost predicate Reached(mo: Mode, st: Registers, ds: bytes, dec: bool, u: Registers, out: bytes)
    requires Ready(mo, st)
  {
    u == Feed(mo, st, ds, dec).0 && out == Feed(mo, st, ds, dec).1
  }

  /**
   The call ends one byte into the two-byte block. A caller can tell: without
   earlier calls of that kind it is the call after which one byte more than a
   block was processed.
   */
  ghost predicate EndsInside(mo: Mode, st: Registers, data: bytes, dec: bool)
    requires Ready(mo, st)
  {
    data != [] && mo.resync && var r := Feed(mo, st, data[..|data| - 1], dec).0; r.pos == 0 && r.blockNo == 1
  }

  /** The registers after a turn that loads a block and takes one byte */
  ghost function TurnOver(mo: Mode, u: Registers, d: byte, dec: bool): Registers
    requires Good(mo) && |u.fr| == |u.fre| == |u.encbuf| == mo.bs && u.pos < mo.bs
  {
    Closed(mo, Kept(mo, Load(mo, u), [d], dec))
  }

  /**
   What such a call puts out and leaves: its last byte is taken twice, as the first
   byte of the block and as the second, and put out mixed with the second key byte.
   */
  ghost predicate Slipped(mo: Mode, st: Registers, data: bytes, dec: bool, out: bytes, v: Registers)
    requires Ready(mo, st) && data != []
  {
    var n := |data| - 1;
    var r := Feed(mo, st, data[..n], dec);
    && |out| == |data| && out[..n] == r.1 && out[n] == mo.mix(data[n], Block(mo, r.0.fr)[1])
    && SlippedTo(mo, r.0, data[n], dec, v)
  }

  ghost predicate SlippedTo(mo: Mode, u: Registers, d: byte, dec: bool, v: Registers) {
    && Good(mo) && |u.fr| == |u.fre| == |u.encbuf| == mo.bs && u.pos == 0
    && var w := TurnOver(mo, u, d, dec);
       w.pos == 1 && |w.fr| == |w.fre| == |w.encbuf| == mo.bs && v == TurnOver(mo, w, d, dec)
  }

  /** After this call one byte more than a block was processed in resync mode */
  predicate OneOver(mo: Mode, before: nat, len: nat) {
    mo.resync && len > 0 && before + len == mo.bs + 1
  }

  /** The second key byte of the two-byte block; the byte at that offset should have its first */
  function SecondKey(mo: Mode, c: bytes): byte
    requires Good(mo) && |c| >= mo.bs
  {
    Block(mo, Window(mo, c, mo.bs))[1]
  }

  /** The stretch ds was put out mixed, and the registers took it */
  ghost predicate Took(mo: Mode, u: Registers, ds: bytes, dec: bool, out: bytes, v: Registers) {
    && Good(mo) && u.pos + |ds| <= |u.fre| == |u.encbuf| == mo.bs
    && out == Mixed(mo, u, ds) && v == Closed(mo, Kept(mo, u, ds, dec))
  }

  class Context {
    const mode: Mode
    var fr: bytes
    var fre: bytes
    var encbuf: bytes
    var pos: nat
    var blockNo: nat

    ghost function View(): Registers
      reads this
    {
      Registers(pos, blockNo, fr, fre, encbuf)
    }

    ghost predicate Sound()
      reads this
    {
      Good(mode) && |fr| == |fre| == |encbuf| == mode.bs
    }

    /** pgp_cfb_create */
    constructor (mo: Mode)
      requires Good(mo)
      ensures Sound() && mode == mo && Tracks(mode, View(), [])
    {
      mode := mo;
      fr := mo.iv;
      fre := seq(mo.bs, i => 0);
      encbuf := seq(mo.bs, i => 0);
      pos, blockNo := 0, 0;
      new;
      Initially(mode, View());
    }

    /** The loop all mixing functions share: what it writes to the output, and to encbuf from pos on */
    method MixRun(ds: bytes, dec: bool) returns (out: bytes)
      requires Sound() && pos + |ds| <= mode.bs
      modifies this`pos, this`encbuf
      ensures Sound() && View() == Kept(mode, old(View()), ds, dec)
      ensures out == Mixed(mode, old(View()), ds)
    {
      ghost var u := View();
      out := [];
      var done: bytes := [];
      var j := 0;
      while j < |ds|
        invariant j <= |ds| && View() == u
        invariant out == Mixed(mode, u, ds[..j]) && done == Cipher(mode, u, ds[..j], dec)
      {
        MixedSnoc(mode, u, ds[..j], ds[j]);
        assert ds[..j + 1] == ds[..j] + [ds[j]];
        var x := mode.mix(ds[j], fre[pos + j]);
        out := out + [x];
        done := done + [if dec then ds[j] else x];
        j := j + 1;
      }
      assert ds[..|ds|] == ds;
      encbuf := encbuf[..pos] + done + encbuf[pos + |ds|..];
      pos := pos + |ds|;
    }

    /** The part for block number 2; what it returns when the block is not full is what it left of the input, which is nothing */
    method MixShort(ds: bytes, dec: bool) returns (res: nat, out: bytes)
      requires Sound() && ds != [] && pos < 2 && Short(mode, View())
      modifies this`pos, this`encbuf, this`fr
      ensures Sound() && res == if old(pos) == 0 && |ds| == 1 then 0 else Min(|ds|, 2 - old(pos))
      ensures Took(mode, old(View()), ds[..Min(|ds|, 2 - old(pos))], dec, out, View())
    {
      var m := 2 - pos;
      if |ds| < m {
        m := |ds|;
      }
      out := MixRun(ds[..m], dec);
      if pos == 2 {
        fr := encbuf[2..] + encbuf[..2];
        pos := 0;
        res := m;
      } else {
        res := |ds| - m;
      }
    }

    /** The part for other blocks, with the test for the end of the block, which the two-byte block never passes */
    method MixFull(ds: bytes, dec: bool) returns (out: bytes)
      requires Sound() && pos + |ds| <= mode.bs && !Short(mode, View())
      modifies this`pos, this`encbuf, this`fr
      ensures Sound() && Took(mode, old(View()), ds, dec, out, View())
    {
      out := MixRun(ds, dec);
      if pos == mode.bs {
        fr := encbuf;
        pos := 0;
      }
    }

    /** mix_encrypt_resync and mix_decrypt_resync (without resync, the two normal ones), and what follows each call of them */
    method Turn(ds: bytes, dec: bool) returns (res: nat, out: bytes)
      requires Sound() && pos + |ds| <= mode.bs && ds != [] && pos < Limit(mode, View())
      modifies this`pos, this`encbuf, this`fr
      ensures Sound() && res == if Stuck(mode, old(View()), |ds|) then 0 else Taken(mode, old(View()), |ds|)
      ensures Took(mode, old(View()), ds[..Taken(mode, old(View()), |ds|)], dec, out, View())
    {
      if mode.resync && blockNo == 2 {
        res, out := MixShort(ds, dec);
      } else {
        out := MixFull(ds, dec);
        res := |ds|;
        assert ds[..|ds|] == ds;
      }
    }

    /** The machine is where it is after data[..o], and out is what it put out */
    ghost predicate At(st: Registers, data: bytes, o: nat, out: bytes, dec: bool)
      reads this
      requires Ready(mode, st)
    {
      Sound() && o <= |data| && Reached(mode, st, data[..o], dec, View(), out)
    }

    /** One turn of the first loop: on with a block that was begun */
    method Continue(data: bytes, o: nat, out: bytes, dec: bool, ghost st: Registers) returns (o': nat, out': bytes)
      requires Ready(mode, st) && At(st, data, o, out, dec) && o < |data| && pos > 0
      modifies this`pos, this`encbuf, this`fr
      ensures At(st, data, o', out', dec) && o < o' && (o' == |data| ==> !EndsInside(mode, st, data, dec))
    {
      var n := Min(mode.bs - pos, |data| - o);
      ghost var u := View();
      Going(mode, st, data[..o], dec, u, out);
      var res, x := Turn(data[o..o + n], dec);
      ReachOn(mode, st, data, o, n, res, dec, u, out, x, View());
      o', out' := o + res, out + x;
    }

    /** px_cipher_encrypt of the feedback register, at the start of a block */
    method LoadBlock()
      requires Sound()
      modifies this`blockNo, this`fre
      ensures View() == Load(mode, old(View()))
    {
      fre := Block(mode, fr);
      if blockNo < 5 {
        blockNo := blockNo + 1;
      }
    }

    /** One turn of the second loop, at a block boundary; it takes no byte just when the call ends inside the two-byte block */
    method Begin(data: bytes, o: nat, out: bytes, dec: bool, ghost st: Registers) returns (o': nat, out': bytes)
      requires Ready(mode, st) && At(st, data, o, out, dec) && o < |data| && pos == 0
      modifies this`pos, this`encbuf, this`fr, this`blockNo, this`fre
      ensures o <= o' && Sound()
      ensures o < o' ==> At(st, data, o', out', dec) && (o' == |data| ==> !EndsInside(mode, st, data, dec))
      ensures o < o' < |data| ==> pos == 0
      ensures o' == o ==> EndsInside(mode, st, data, dec) && o == |data| - 1 && blockNo == 2 && pos == 1
      ensures o' == o ==> View() == TurnOver(mode, old(View()), data[o], dec)
    {
      ghost var u := View();
      Going(mode, st, data[..o], dec, u, out);
      LoadBlock();
      var n := Min(mode.bs, |data| - o);
      var res, x := Turn(data[o..o + n], dec);
      ReachNew(mode, st, data, o, n, res, dec, u, out, x, View());
      o', out' := o + res, out + x;
    }

    /** The turn after that: the block is counted as begun a second time, and the byte is taken as its second */
    method Slip(d: byte, dec: bool) returns (x: byte)
      requires Sound() && pos == 1 && blockNo == 2
      modifies this`pos, this`encbuf, this`fr, this`blockNo, this`fre
      ensures Sound() && x == mode.mix(d, Block(mode, old(fr))[1])
      ensures View() == TurnOver(mode, old(View()), d, dec)
    {
      LoadBlock();
      var res, y := Turn([d], dec);
      assert [d][..1] == [d];
      x := y[0];
    }

    /** The second loop of cfb_process; when a turn takes no byte, the loop goes round once more with the same byte */
    method Blocks(data: bytes, start: nat, before: bytes, dec: bool, ghost st: Registers) returns (out: bytes)
      requires Ready(mode, st) && At(st, data, start, before, dec) && (start < |data| ==> pos == 0)
      requires start == |data| ==> !EndsInside(mode, st, data, dec)
      modifies this`pos, this`encbuf, this`fr, this`blockNo, this`fre
      ensures Sound()
      ensures !EndsInside(mode, st, data, dec) ==> At(st, data, |data|, out, dec)
      ensures EndsInside(mode, st, data, dec) ==> Slipped(mode, st, data, dec, out, View())
    {
      var o := start;
      out := before;
      while o < |data|
        invariant o <= |data| && At(st, data, o, out, dec) && (o < |data| ==> pos == 0)
        invariant o == |data| ==> !EndsInside(mode, st, data, dec)
      {
        var next, more := Begin(data, o, out, dec, st);
        if next == o {
          var x := Slip(data[o], dec);
          out := out + [x];
          return;
        }
        o, out := next, more;
      }
    }

    /** cfb_process: the machine, unless the call ends inside the two-byte block */
    method Process(data: bytes, dec: bool, ghost st: Registers) returns (out: bytes)
      requires Sound() && View() == st && Ready(mode, st)
      modifies this`pos, this`encbuf, this`fr, this`blockNo, this`fre
      ensures Sound()
      ensures !EndsInside(mode, st, data, dec) ==> At(st, data, |data|, out, dec)
      ensures EndsInside(mode, st, data, dec) ==> Slipped(mode, st, data, dec, out, View())
    {
      var o: nat := 0;
      out := [];
      assert data[..0] == [];
      while o < |data| && pos > 0
        invariant o <= |data| && At(st, data, o, out, dec)
        invariant o == |data| ==> !EndsInside(mode, st, data, dec)
      {
        o, out := Continue(data, o, out, dec, st);
      }
      out := Blocks(data, o, out, dec, st);
    }

    /**
     pgp_cfb_encrypt after plaintext p. Whatever the calls so far, the output is the
     next part of the one ciphertext of all the plaintext, unless the call ends one
     byte into the two-byte block; then its last byte has the wrong key byte.
     */
    method Encrypt(data: bytes, ghost p: bytes) returns (out: bytes)
      requires Sound() && Tracks(mode, View(), Encrypted(mode, p))
      modifies this`pos, this`encbuf, this`fr, this`blockNo, this`fre
      ensures Sound() && |out| == |data|
      ensures !OneOver(mode, |p|, |data|) ==> Tracks(mode, View(), Encrypted(mode, p + data))
      ensures !OneOver(mode, |p|, |data|) ==> Encrypted(mode, p) + out == Encrypted(mode, p + data)
      ensures OneOver(mode, |p|, |data|) ==>
        && Encrypted(mode, p) + out[..|data| - 1] == Encrypted(mode, p + data[..|data| - 1])
        && out[|data| - 1] == mode.mix(data[|data| - 1], SecondKey(mode, Encrypted(mode, p + data)))
    {
      ghost var st := View();
      TracksReady(mode, st, Encrypted(mode, p));
      InsideIff(mode, st, Encrypted(mode, p), data, false);
      out := Process(data, false, st);
      if !OneOver(mode, |p|, |data|) {
        assert data[..|data|] == data;
        FeedEncrypts(mode, st, p, data);
      } else {
        SlipEncrypts(mode, st, p, data, out, View());
      }
    }

    /** pgp_cfb_decrypt after ciphertext c */
    method Decrypt(data: bytes, ghost c: bytes) returns (out: bytes)
      requires Sound() && Tracks(mode, View(), c)
      modifies this`pos, this`encbuf, this`fr, this`blockNo, this`fre
      ensures Sound() && |out| == |data|
      ensures !OneOver(mode, |c|, |data|) ==> Tracks(mode, View(), c + data)
      ensures !OneOver(mode, |c|, |data|) ==> Decrypted(mode, c) + out == Decrypted(mode, c + data)
      ensures OneOver(mode, |c|, |data|) ==>
        && Decrypted(mode, c) + out[..|data| - 1] == Decrypted(mode, c + data[..|data| - 1])
        && out[|data| - 1] == mode.mix(data[|data| - 1], SecondKey(mode, c + data))
    {
      ghost var st := View();
      TracksReady(mode, st, c);
      InsideIff(mode, st, c, data, true);
      out := Process(data, true, st);
      if !OneOver(mode, |c|, |data|) {
        assert data[..|data|] == data;
        FeedDecrypts(mode, st, c, data);
      } else {
        SlipDecrypts(mode, st, c, data, out, View());
      }
    }
  }

  /** A stretch inside one block brings the machine from data[..o] to data[..o + k] */
  lemma Advance(mo: Mode, st: Registers, data: bytes, o: nat, k: nat, dec: bool)
    requires Ready(mo, st) && 0 < k && o + k <= |data|
    requires var u := Feed(mo, st, data[..o], dec).0; u.pos + k <= Limit(mo, Loaded(mo, u))
    ensures var u := Loaded(mo, Feed(mo, st, data[..o], dec).0);
      && Feed(mo, st, data[..o + k], dec).0 == Closed(mo, Kept(mo, u, data[o..o + k], dec))
      && Feed(mo, st, data[..o + k], dec).1 == Feed(mo, st, data[..o], dec).1 + Mixed(mo, u, data[o..o + k])
  {
    var a, b := data[..o], data[o..o + k];
    assert data[..o + k] == a + b;
    FeedCut(mo, st, a, b, dec);
    FeedCutOut(mo, st, a, b, dec);
    FeedStretch(mo, Feed(mo, st, a, dec).0, b, dec);
  }

  /** The call's last stretch was not the byte that gets lost, so the call does not end inside the two-byte block */
  lemma NotInside(mo: Mode, st: Registers, data: bytes, o: nat, dec: bool)
    requires Ready(mo, st) && o < |data|
    requires var u := Feed(mo, st, data[..o], dec).0;
      u.pos + |data| - o <= Limit(mo, Loaded(mo, u)) && !(mo.resync && u.pos == 0 && u.blockNo == 1 && o == |data| - 1)
    ensures !EndsInside(mo, st, data, dec)
  {
    var k := |data| - 1 - o;
    if k > 0 {
      var u := Feed(mo, st, data[..o], dec).0;
      Advance(mo, st, data, o, k, dec);
      assert data[..o + k] == data[..|data| - 1];
      assert Closed(mo, Kept(mo, Loaded(mo, u), data[o..o + k], dec)).pos > 0;
    }
  }

  /** A turn that took k bytes of the n offered from offset o */
  lemma Reach(mo: Mode, st: Registers, data: bytes, o: nat, n: nat, k: nat, dec: bool, u: Registers, out: bytes, x: bytes, v: Registers)
    requires Ready(mo, st) && 0 < k <= n && o + n <= |data| && Reached(mo, st, data[..o], dec, u, out)
    requires Took(mo, Loaded(mo, u), data[o..o + n][..k], dec, x, v)
    requires u.pos + k <= Limit(mo, Loaded(mo, u)) && !(mo.resync && u.pos == 0 && u.blockNo == 1 && o == |data| - 1)
    ensures Reached(mo, st, data[..o + k], dec, v, out + x)
    ensures o + k == |data| ==> !EndsInside(mo, st, data, dec)
  {
    assert data[o..o + n][..k] == data[o..o + k];
    Advance(mo, st, data, o, k, dec);
    if o + k == |data| {
      NotInside(mo, st, data, o, dec);
    }
  }

  /** Where the machine is, there is room for a byte */
  lemma Going(mo: Mode, st: Registers, ds: bytes, dec: bool, u: Registers, out: bytes)
    requires Ready(mo, st) && Reached(mo, st, ds, dec, u, out)
    ensures Ready(mo, u)
  {
  }

  /** A turn of the first loop */
  lemma ReachOn(mo: Mode, st: Registers, data: bytes, o: nat, n: nat, res: nat, dec: bool, u: Registers, out: bytes, x: bytes, v: Registers)
    requires Ready(mo, st) && o < |data| && Reached(mo, st, data[..o], dec, u, out) && Ready(mo, u) && u.pos > 0
    requires n == Min(mo.bs - u.pos, |data| - o) && res == if Stuck(mo, u, n) then 0 else Taken(mo, u, n)
    requires Took(mo, u, data[o..o + n][..Taken(mo, u, n)], dec, x, v)
    ensures res > 0 && Reached(mo, st, data[..o + res], dec, v, out + x)
    ensures o + res == |data| ==> !EndsInside(mo, st, data, dec)
  {
    assert Loaded(mo, u) == u;
    Reach(mo, st, data, o, n, res, dec, u, out, x, v);
  }

  /** A turn of the second loop */
  lemma ReachNew(mo: Mode, st: Registers, data: bytes, o: nat, n: nat, res: nat, dec: bool, u: Registers, out: bytes, x: bytes, v: Registers)
    requires Ready(mo, st) && o < |data| && Reached(mo, st, data[..o], dec, u, out) && Ready(mo, u) && u.pos == 0
    requires var w := Load(mo, u);
      && n == Min(mo.bs, |data| - o) && res == (if Stuck(mo, w, n) then 0 else Taken(mo, w, n))
      && Took(mo, w, data[o..o + n][..Taken(mo, w, n)], dec, x, v)
    ensures res > 0 ==> Reached(mo, st, data[..o + res], dec, v, out + x)
    ensures res > 0 && o + res == |data| ==> !EndsInside(mo, st, data, dec)
    ensures 0 < res < |data| - o ==> v.pos == 0
    ensures res == 0 ==> EndsInside(mo, st, data, dec) && o == |data| - 1 && v.pos == 1 && v.blockNo == 2
    ensures res == 0 ==> v == TurnOver(mo, u, data[o], dec)
  {
    if res > 0 {
      Reach(mo, st, data, o, n, res, dec, u, out, x, v);
    } else {
      assert data[o..o + n][..1] == [data[o]];
    }
  }

  lemma TracksPrefix(mo: Mode, st: Registers, c: bytes, data: bytes, dec: bool) returns (d: bytes)
    requires Tracks(mo, st, c) && Ready(mo, st)
    ensures Tracks(mo, Feed(mo, st, data, dec).0, d) && |d| == |c| + |data|
    ensures dec ==> d == c + data
    decreases |data|
  {
    if data == [] {
      d := c;
      assert c + data == c;
    } else {
      var n := |data| - 1;
      var e := TracksPrefix(mo, st, c, data[..n], dec);
      Last(data);
      FeedSnoc(mo, st, data[..n], data[n], dec);
      var r := Feed(mo, st, data[..n], dec).0;
      StepTracks(mo, r, e, data[n], dec);
      d := e + [CipherByte(mo, r, data[n], dec)];
      Assoc(c, data[..n], [data[n]]);
    }
  }

  /** Which calls end inside the two-byte block, in terms a caller knows */
  lemma InsideIff(mo: Mode, st: Registers, c: bytes, data: bytes, dec: bool)
    requires Tracks(mo, st, c) && Ready(mo, st)
    ensures EndsInside(mo, st, data, dec) <==> OneOver(mo, |c|, |data|)
  {
    if data != [] && mo.resync {
      var n := |data| - 1;
      var d := TracksPrefix(mo, st, c, data[..n], dec);
      AtFirstBoundary(mo, Feed(mo, st, data[..n], dec).0, d);
    }
  }

  /** At the end of the first block the second key byte of the next is the one the slip takes */
  lemma SlipWindow(mo: Mode, r: Registers, e: bytes, d: byte)
    requires Tracks(mo, r, e) && |e| == mo.bs
    ensures Block(mo, r.fr)[1] == SecondKey(mo, e + [d])
  {
    SlipStart(mo);
    WindowNext(mo, e, d, mo.bs);
  }

  lemma SlipEncrypts(mo: Mode, st: Registers, p: bytes, data: bytes, out: bytes, v: Registers)
    requires Good(mo) && Tracks(mo, st, Encrypted(mo, p)) && Ready(mo, st) && OneOver(mo, |p|, |data|)
    requires Slipped(mo, st, data, false, out, v)
    ensures Encrypted(mo, p) + out[..|data| - 1] == Encrypted(mo, p + data[..|data| - 1])
    ensures out[|data| - 1] == mo.mix(data[|data| - 1], SecondKey(mo, Encrypted(mo, p + data)))
  {
    var n := |data| - 1;
    var a, d := data[..n], data[n];
    FeedEncrypts(mo, st, p, a);
    Last(data);
    Assoc(p, a, [d]);
    StartWithin(mo, |p + a|);
    EncryptedNext(mo, p + a, d);
    SlipWindow(mo, Feed(mo, st, a, false).0, Encrypted(mo, p + a), mo.mix(d, Key(mo, Encrypted(mo, p + a), |p + a|)));
  }

  lemma SlipDecrypts(mo: Mode, st: Registers, c: bytes, data: bytes, out: bytes, v: Registers)
    requires Tracks(mo, st, c) && Ready(mo, st) && OneOver(mo, |c|, |data|)
    requires Slipped(mo, st, data, true, out, v)
    ensures Decrypted(mo, c) + out[..|data| - 1] == Decrypted(mo, c + data[..|data| - 1])
    ensures out[|data| - 1] == mo.mix(data[|data| - 1], SecondKey(mo, c + data))
  {
    var n := |data| - 1;
    var a, d := data[..n], data[n];
    FeedDecrypts(mo, st, c, a);
    Last(data);
    Assoc(c, a, [d]);
    SlipWindow(mo, Feed(mo, st, a, true).0, c + a, d);
  }

  /** The two-byte block starts after one block */
  lemma SlipStart(mo: Mode)
    requires Good(mo)
    ensures Start(mo, mo.bs) == mo.bs
  {
    StartWithin(mo, mo.bs);
  }

  /** With exclusive or the slipped byte is right exactly when the two key bytes happen to be equal */
  lemma SlipWrong(mo: Mode, c: bytes, d: byte)
    requires Good(mo) && mo.resync && |c| >= mo.bs && Start(mo, mo.bs) <= |c|
    ensures Xor(d, SecondKey(mo, c)) == Xor(d, Key(mo, c, mo.bs)) <==> SecondKey(mo, c) == Key(mo, c, mo.bs)
    ensures Key(mo, c, mo.bs) == Block(mo, Window(mo, c, mo.bs))[0]
  {
    SlipStart(mo);
    XorInjective(d, SecondKey(mo, c), Key(mo, c, mo.bs));
  }

  /** A cipher for which it is wrong, whatever the data */
  function Ramp(x: bytes): bytes {
    seq(8, i requires 0 <= i < 8 => i)
  }

  lemma SlipExample(c: bytes, d: byte)
    requires |c| >= 8
    ensures var mo := Mode(8, true, Ramp, seq(8, i => 0), Xor);
      Good(mo) && Start(mo, 8) <= |c| && Xor(d, SecondKey(mo, c)) != Xor(d, Key(mo, c, 8))
  {
    var mo := Mode(8, true, Ramp, seq(8, i => 0), Xor);
    SlipStart(mo);
    SlipWrong(mo, c, d);
  }

  // ---------------------------------------------------------------- whole streams

  /** No call ends one byte into the two-byte block */
  ghost predicate Steady(mo: Mode, pieces: seq<bytes>) {
    forall j :: 0 <= j < |pieces| ==> !OneOver(mo, |Concat(pieces[..j])|, |pieces[j]|)
  }

  /** Encryption over any such calls: the one ciphertext of the joined pieces */
  method EncryptAll(mo: Mode, pieces: seq<bytes>) returns (out: bytes)
    requires Good(mo) && Steady(mo, pieces)
    ensures out == Encrypted(mo, Concat(pieces))
  {
    var c := new Context(mo);
    out := [];
    var j := 0;
    while j < |pieces|
      invariant j <= |pieces| && fresh(c) && c.mode == mo && c.Sound()
      invariant out == Encrypted(mo, Concat(pieces[..j])) && Tracks(mo, c.View(), out)
    {
      ConcatNext(pieces, j);
      var more := c.Encrypt(pieces[j], Concat(pieces[..j]));
      out := out + more;
      j := j + 1;
    }
    assert pieces[..|pieces|] == pieces;
  }

  /** Decryption over any such calls */
  method DecryptAll(mo: Mode, pieces: seq<bytes>) returns (out: bytes)
    requires Good(mo) && Steady(mo, pieces)
    ensures out == Decrypted(mo, Concat(pieces))
  {
    var c := new Context(mo);
    out := [];
    var j := 0;
    while j < |pieces|
      invariant j <= |pieces| && fresh(c) && c.mode == mo && c.Sound()
      invariant out == Decrypted(mo, Concat(pieces[..j])) && Tracks(mo, c.View(), Concat(pieces[..j]))
    {
      ConcatNext(pieces, j);
      var more := c.Decrypt(pieces[j], Concat(pieces[..j]));
      out := out + more;
      j := j + 1;
    }
    assert pieces[..|pieces|] == pieces;
  }

  /** A stream encrypted over some calls, and its ciphertext cut anew and decrypted over those: the stream comes back */
  method ThereAndBack(mo: Mode, pieces: seq<bytes>, at: seq<nat>) returns (sent: bytes, back: bytes)
    requires Good(mo) && SelfInverse(mo.mix)
    requires Steady(mo, pieces) && Steady(mo, Cut(Encrypted(mo, Concat(pieces)), at))
    ensures sent == Encrypted(mo, Concat(pieces)) && back == Concat(pieces)
  {
    sent := EncryptAll(mo, pieces);
    ConcatCut(sent, at);
    DecryptedEncrypted(mo, Concat(pieces));
    back := DecryptAll(mo, Cut(sent, at));
  }
}
