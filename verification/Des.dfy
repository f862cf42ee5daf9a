/** The DES state that crypt keeps between calls: salt, key schedule, and what they were computed from. */
module Des {

  import opened Common
  import opened DesBits
  import opened DesTables
  import opened DesSpec

  /** The tables of the standard, with bits counted from 0 */
  datatype Standard = Standard(sbox: Boxes, pbox: seq<nat>, keyPerm: seq<nat>, compPerm: seq<nat>, shifts: seq<nat>)

  /** The key permutation selects 56 bits and no parity bit, the compression 48 of those */
  ghost predicate StandardOk(c: Standard) {
    && BoxesOk(c.sbox) && PBoxOk(c.pbox)
    && |c.keyPerm| == 56 && Within(c.keyPerm, 64) && Injective(c.keyPerm)
    && (forall i :: 0 <= i < 56 ==> c.keyPerm[i] % 8 != 7)
    && |c.compPerm| == 48 && Within(c.compPerm, 56) && Injective(c.compPerm)
    && |c.shifts| == ROUNDS && Sum(c.shifts) <= 28
  }

  /** What des_init fills */
  datatype Tables = Tables(pairs: seq<seq<bits>>, psbox: Masks, unPbox: seq<nat>,
                           ip: Masks, initPerm: seq<nat>, fp: Masks,
                           keyMasks: Masks, invKeyPerm: seq<nat>, compMasks: Masks, invCompPerm: seq<nat>)

  ghost predicate TablesFor(c: Standard, t: Tables)
    requires StandardOk(c)
  {
    && PairsFilled(t.pairs, c.sbox)
    && |t.unPbox| == 32 && Inverts(c.pbox, t.unPbox) && Filled(t.psbox, t.unPbox, 32, 8)
    && |t.initPerm| == 64 && Inverts(FinalPerm(), t.initPerm) && Filled(t.ip, t.initPerm, 64, 8)
    && Filled(t.fp, FinalPerm(), 64, 8)
    && |t.invKeyPerm| == 64 && Inverts(c.keyPerm, t.invKeyPerm) && Filled(t.keyMasks, NoParity(t.invKeyPerm, 8), 56, 7)
    && ParityDropped(t.invKeyPerm, 56)
    && |t.invCompPerm| == 56 && Inverts(c.compPerm, t.invCompPerm) && Filled(t.compMasks, t.invCompPerm, 48, 7)
  }

  lemma FinalInjective()
    ensures Within(FinalPerm(), 64) && Injective(FinalPerm())
  {
    PermsInverse();
    forall i, j | 0 <= i < j < 64
      ensures FinalPerm()[i] != FinalPerm()[j]
    {
      assert InitPerm()[FinalPerm()[i]] == i && InitPerm()[FinalPerm()[j]] == j;
    }
  }

  lemma GroupCounts()
    ensures Times(8, 8) == 64 && Times(8, 4) == 32 && Times(7, 8) == 56
  {
    assert Times(8, 2) == 16 && Times(8, 4) == Times(8, 2) + 16 && Times(8, 6) == Times(8, 4) + 16;
    assert Times(7, 2) == 14 && Times(7, 4) == Times(7, 2) + 14 && Times(7, 6) == Times(7, 4) + 14;
  }

  /** des_init */
  method Init(c: Standard) returns (t: Tables)
    requires StandardOk(c)
    ensures TablesFor(c, t)
  {
    GroupCounts();
    var pairs := FillPairs(c.sbox);
    FinalInjective();
    var initPerm := Invert(FinalPerm(), 64);
    var invKeyPerm := Invert(c.keyPerm, 64);
    var invCompPerm := Invert(c.compPerm, 56);
    var ip := FillTable(initPerm, 64, 8, 8);
    var fp := FillTable(FinalPerm(), 64, 8, 8);
    var keyMasks := FillTable(NoParity(invKeyPerm, 8), 56, 7, 8);
    var compMasks := FillTable(invCompPerm, 48, 7, 8);
    var unPbox := Invert(c.pbox, 32);
    var psbox := FillTable(unPbox, 32, 8, 4);
    t := Tables(pairs, psbox, unPbox, ip, initPerm, fp, keyMasks, invKeyPerm, compMasks, invCompPerm);
  }

  const ROUNDS: nat := 16
  const SALT_BITS: nat := 24
  const KEY_BYTES: nat := 8

  function Sum(s: seq<nat>): nat {
    if s == [] then 0 else Sum(s[..|s| - 1]) + s[|s| - 1]
  }

  lemma {:induction false} SumPrefix(s: seq<nat>, i: nat)
    requires i <= |s|
    ensures Sum(s[..i]) <= Sum(s)
    decreases |s|
  {
    if i < |s| {
      SumPrefix(s[..|s| - 1], i);
      assert s[..|s| - 1][..i] == s[..i];
    } else {
      assert s[..i] == s;
    }
  }

  function Rotate(k: bits, amount: nat): (t: bits)
    requires amount <= |k|
    ensures |t| == |k|
  {
    k[amount..] + k[..amount]
  }

  /** The key after the key permutation */
  function Permuted(c: Standard, raw: bits): (k: bits)
    requires StandardOk(c) && |raw| == 64
    ensures |k| == 56
  {
    Select(c.keyPerm, raw)
  }

  /** The round key after rotating both halves */
  function KeyAt(c: Standard, k: bits, amount: nat): (rk: RoundKey)
    requires StandardOk(c) && |k| == 56 && amount <= 28
    ensures |rk.kl| == 24 && |rk.kr| == 24
  {
    var x := Select(c.compPerm, Rotate(k[..28], amount) + Rotate(k[28..], amount));
    RoundKey(x[..24], x[24..])
  }

  /** The first n round keys */
  function Schedule(c: Standard, k: bits, n: nat): (ks: seq<RoundKey>)
    requires StandardOk(c) && |k| == 56 && n <= ROUNDS
    ensures |ks| == n && KeysOk(ks)
  {
    if n == 0 then [] else
      SumPrefix(c.shifts, n);
      Schedule(c, k, n - 1) + [KeyAt(c, k, Sum(c.shifts[..n]))]
  }

  /** How far the halves are turned before each round: all shifts up to it */
  ghost predicate Totals(shifts: seq<nat>, ts: seq<nat>) {
    |ts| == |shifts| + 1 && ts[0] == 0 && forall j :: 0 <= j < |shifts| ==> ts[j + 1] == ts[j] + shifts[j]
  }

  lemma {:induction false} TotalsSum(shifts: seq<nat>, ts: seq<nat>, j: nat)
    requires Totals(shifts, ts) && j <= |shifts|
    ensures ts[j] == Sum(shifts[..j])
  {
    if j > 0 {
      TotalsSum(shifts, ts, j - 1);
      assert shifts[..j][..j - 1] == shifts[..j - 1];
    } else {
      assert shifts[..0] == [];
    }
  }

  /** Bit p of two halves of 28 bits comes from this place when both are turned left by t */
  function Turned(p: nat, t: nat): nat {
    if p < 28 then (p + t) % 28 else 28 + (p - 28 + t) % 28
  }

  lemma RotateAt(k: bits, t: nat, q: nat)
    requires |k| == 28 && t <= 28 && q < 28
    ensures Rotate(k, t)[q] == k[(q + t) % 28]
  {
    if q + t < 28 {
      assert (q + t) % 28 == q + t;
    } else {
      assert (q + t) % 28 == q + t - 28;
    }
  }

  lemma TurnedAt(k: bits, t: nat, p: nat)
    requires |k| == 56 && t <= 28 && p < 56
    ensures (Rotate(k[..28], t) + Rotate(k[28..], t))[p] == k[Turned(p, t)]
  {
    if p < 28 {
      RotateAt(k[..28], t, p);
    } else {
      RotateAt(k[28..], t, p - 28);
    }
  }

  /** Every bit of every round key is the key bit that both tables and the turns up to that round select */
  lemma ScheduleBits(c: Standard, raw: bits, ts: seq<nat>, j: nat, i: nat)
    requires StandardOk(c) && |raw| == 64 && Totals(c.shifts, ts) && j < ROUNDS && i < 48
    ensures c.compPerm[i] < 56 && Turned(c.compPerm[i], ts[j + 1]) < 56
    ensures var rk := Schedule(c, Permuted(c, raw), ROUNDS)[j];
      (rk.kl + rk.kr)[i] == raw[c.keyPerm[Turned(c.compPerm[i], ts[j + 1])]]
  {
    var k := Permuted(c, raw);
    TotalsSum(c.shifts, ts, j + 1);
    SumPrefix(c.shifts, j + 1);
    ScheduleAt(c, k, ROUNDS, j);
    KeyBit(c, k, ts[j + 1], i);
  }

  lemma KeyBit(c: Standard, k: bits, t: nat, i: nat)
    requires StandardOk(c) && |k| == 56 && t <= 28 && i < 48
    ensures c.compPerm[i] < 56 && Turned(c.compPerm[i], t) < 56
    ensures var rk := KeyAt(c, k, t); (rk.kl + rk.kr)[i] == k[Turned(c.compPerm[i], t)]
  {
    var x := Rotate(k[..28], t) + Rotate(k[28..], t);
    TurnedAt(k, t, c.compPerm[i]);
    assert (Select(c.compPerm, x)[..24] + Select(c.compPerm, x)[24..])[i] == x[c.compPerm[i]];
  }

  lemma {:induction false} ScheduleAt(c: Standard, k: bits, n: nat, j: nat)
    requires StandardOk(c) && |k| == 56 && j < n <= ROUNDS
    ensures Sum(c.shifts[..j + 1]) <= 28 && Schedule(c, k, n)[j] == KeyAt(c, k, Sum(c.shifts[..j + 1]))
  {
    SumPrefix(c.shifts, j + 1);
    if j < n - 1 {
      ScheduleAt(c, k, n - 1, j);
    }
  }

  /** The low n bits of the salt, lowest first */
  function SaltBits(salt: nat, n: nat): (b: bits)
    ensures |b| == n
  {
    if n == 0 then [] else [salt % 2 == 1] + SaltBits(salt / 2, n - 1)
  }

  lemma {:induction false} SaltAt(salt: nat, n: nat, i: nat)
    requires i < n
    ensures SaltBits(salt, n)[i] == (salt / Pow2(i) % 2 == 1)
  {
    if i > 0 {
      SaltAt(salt / 2, n - 1, i - 1);
      DivThen(salt, 2, Pow2(i - 1));
    }
  }

  // ---------------------------------------------------------------- what the code reads out of the tables

  /** The key permutation a byte at a time, without the parity bits */
  method PermuteKey(c: Standard, t: Tables, raw: bits) returns (k: bits)
    requires StandardOk(c) && TablesFor(c, t) && |raw| == 64
    ensures k == Permuted(c, raw)
  {
    var x := NoParity(raw, KEY_BYTES);
    ReadScatters(t.keyMasks, NoParity(t.invKeyPerm, 8), 56, 7, x);
    DropsBytes(t.invKeyPerm, 56, KEY_BYTES);
    ParityUnused(t.invKeyPerm, 56, raw, KEY_BYTES);
    ScatterSelects(c.keyPerm, t.invKeyPerm, raw);
    k := Read(t.keyMasks, 56, 7, x);
  }

  /** Both halves rotated and compressed */
  method CompressKey(c: Standard, t: Tables, k: bits, shifts: nat) returns (rk: RoundKey)
    requires StandardOk(c) && TablesFor(c, t) && |k| == 56 && shifts <= 28
    ensures rk == KeyAt(c, k, shifts)
  {
    var x := Rotate(k[..28], shifts) + Rotate(k[28..], shifts);
    ReadSelects(t.compMasks, c.compPerm, t.invCompPerm, 7, x);
    var y := Read(t.compMasks, 48, 7, x);
    rk := RoundKey(y[..24], y[24..]);
  }

  /** The two permutations of a block */
  method Initial(c: Standard, t: Tables, x: bits) returns (h: Halves)
    requires StandardOk(c) && TablesFor(c, t) && |x| == 64
    ensures h == Enter(x)
  {
    ReadSelects(t.ip, FinalPerm(), t.initPerm, 8, x);
    var p := Read(t.ip, 64, 8, x);
    h := Halves(p[..32], p[32..]);
  }

  method Final(c: Standard, t: Tables, h: Halves) returns (y: bits)
    requires StandardOk(c) && TablesFor(c, t) && HalvesOk(h)
    ensures y == Leave(h)
  {
    PermsInverse();
    ReadSelects(t.fp, InitPerm(), FinalPerm(), 8, h.l + h.r);
    y := Read(t.fp, 64, 8, h.l + h.r);
  }

  /** The paired S-boxes on twelve bits at a time */
  method Substituted(c: Standard, t: Tables, x: bits) returns (y: bits)
    requires StandardOk(c) && TablesFor(c, t) && |x| == 48
    ensures y == Substitute(c.sbox, x)
  {
    PairRead(t.pairs[0], c.sbox, 0, x[..12]);
    PairRead(t.pairs[1], c.sbox, 1, x[12..24]);
    PairRead(t.pairs[2], c.sbox, 2, x[24..36]);
    PairRead(t.pairs[3], c.sbox, 3, x[36..]);
    y := t.pairs[0][Index(x[..12])] + t.pairs[1][Index(x[12..24])] + t.pairs[2][Index(x[24..36])] + t.pairs[3][Index(x[36..])];
  }

  /**
   The round function, by way of both tables: bit i is the bit that P selects of what
   the S-boxes give for the salted and keyed bits e.
   */
  method Mangle(c: Standard, t: Tables, salt: bits, r: bits, k: RoundKey) returns (x: bits, ghost e: bits)
    requires StandardOk(c) && TablesFor(c, t) && |salt| == 24 && |r| == 32 && |k.kl| == 24 && |k.kr| == 24
    ensures x == F(c.sbox, c.pbox, salt, r, k)
    ensures Entering(salt, r, k, e) && Selected(c, e, x)
  {
    var in48 := Keyed(salt, r, k);
    e := in48;
    KeyedBits(salt, r, k);
    MangledBits(c, salt, r, k);
    var y := Substituted(c, t, in48);
    ReadSelects(t.psbox, c.pbox, t.unPbox, 8, y);
    x := Read(t.psbox, 32, 8, y);
  }

  ghost predicate Selected(c: Standard, e: bits, x: bits)
    requires StandardOk(c)
  {
    |e| == 48 && |x| == 32 && forall i :: 0 <= i < 32 ==> x[i] == SBit(c.sbox, e, c.pbox[i])
  }

  lemma MangledBits(c: Standard, salt: bits, r: bits, k: RoundKey)
    requires StandardOk(c) && |salt| == 24 && |r| == 32 && |k.kl| == 24 && |k.kr| == 24
    ensures Selected(c, Keyed(salt, r, k), F(c.sbox, c.pbox, salt, r, k))
  {
    forall i | 0 <= i < 32
      ensures F(c.sbox, c.pbox, salt, r, k)[i] == SBit(c.sbox, Keyed(salt, r, k), c.pbox[i])
    {
      FBits(c.sbox, c.pbox, salt, r, k, i);
    }
  }

  function Count(n: int): nat {
    if n > 0 then n else -n
  }

  class State {
    const standard: Standard
    const tables: Tables
    var saltbits: bits
    var oldSalt: nat
    var oldRaw: bits
    var en: seq<RoundKey>
    var de: seq<RoundKey>

    ghost predicate Ready()
      reads this
    {
      StandardOk(standard) && TablesFor(standard, tables) && |saltbits| == 24
    }

    /** What is kept is what would be computed again; a zero key is always computed again */
    ghost predicate Valid()
      reads this
    {
      && Ready() && saltbits == SaltBits(oldSalt, SALT_BITS) && |oldRaw| == 64
      && |en| == |de| == 16 && KeysOk(en) && KeysOk(de)
      && (oldRaw != Zero(64) ==> KeyedBy(oldRaw))
    }

    ghost predicate KeyedBy(raw: bits)
      requires StandardOk(standard) && |raw| == 64
      reads this
    {
      var ks := Schedule(standard, Permuted(standard, raw), ROUNDS); en == ks && de == Rev(ks)
    }

    /** The state des_init leaves */
    constructor (c: Standard)
      requires StandardOk(c)
      ensures Valid() && standard == c
    {
      var t := Init(c);
      standard, tables := c, t;
      saltbits, oldSalt, oldRaw := Zero(24), 0, Zero(64);
      var none := RoundKey(Zero(24), Zero(24));
      en, de := seq(16, i => none), seq(16, i => none);
      new;
      ZeroSalt(SALT_BITS);
    }

    /** setup_salt */
    method SetupSalt(salt: nat)
      requires Valid()
      modifies this`saltbits, this`oldSalt
      ensures Valid() && saltbits == SaltBits(salt, SALT_BITS)
      ensures forall i :: 0 <= i < 24 ==> saltbits[i] == (salt / Pow2(i) % 2 == 1)
    {
      forall i | 0 <= i < 24
        ensures SaltBits(salt, 24)[i] == (salt / Pow2(i) % 2 == 1)
      {
        SaltAt(salt, 24, i);
      }
      if salt == oldSalt {
        return;
      }
      oldSalt := salt;
      var b: bits := [];
      var rest, i := salt, 0;
      while i < 24
        invariant i <= 24 && |b| == i && b + SaltBits(rest, 24 - i) == SaltBits(salt, SALT_BITS)
      {
        ghost var more := SaltBits(rest, 24 - i);
        assert b + more == b + [rest % 2 == 1] + more[1..];
        b := b + [rest % 2 == 1];
        rest, i := rest / 2, i + 1;
      }
      assert b + [] == b;
      saltbits := b;
    }

    /** des_setkey, given the eight key bytes as one 64-bit string */
    method SetKey(raw: bits)
      requires Valid() && |raw| == 64
      modifies this`oldRaw, this`en, this`de
      ensures Valid() && KeyedBy(raw)
    {
      if raw != Zero(64) && raw == oldRaw {
        return;
      }
      oldRaw := raw;
      var k := PermuteKey(standard, tables, raw);
      var keys := RoundKeys(k);
      en := keys;
      de := Rev(keys);
    }

    /** The loop over the rounds */
    method RoundKeys(k: bits) returns (ks: seq<RoundKey>)
      requires Ready() && |k| == 56
      ensures ks == Schedule(standard, k, ROUNDS)
    {
      ks := [];
      var shifts, i := 0, 0;
      assert standard.shifts[..0] == [];
      while i < 16
        invariant i <= 16 && shifts == Sum(standard.shifts[..i]) && ks == Schedule(standard, k, i)
      {
        SumPrefix(standard.shifts, i + 1);
        assert standard.shifts[..i + 1][..i] == standard.shifts[..i];
        shifts := shifts + standard.shifts[i];
        var rk := CompressKey(standard, tables, k, shifts);
        ks := ks + [rk];
        i := i + 1;
      }
    }

    ghost function Fn(): RoundFn
      requires Ready()
      reads this
    {
      Mangler(standard.sbox, standard.pbox, saltbits)
    }

    /** do_des on the block of both halves: count passes with the keys forward, or -count with the keys backward */
    method DoDes(x: bits, count: int, ghost f: RoundFn) returns (failed: bool, y: bits)
      requires Ready() && KeysOk(en) && KeysOk(de) && |x| == 64 && f == Fn()
      ensures failed <==> count == 0
      ensures |y| == 64 && (count != 0 ==> y == Crypt(f, if count > 0 then en else de, Count(count), x))
    {
      if count == 0 {
        return true, x;
      }
      failed := false;
      var keys := if count > 0 then en else de;
      y := Run(keys, Count(count), x, f);
    }

    method Run(keys: seq<RoundKey>, n: nat, x: bits, ghost f: RoundFn) returns (y: bits)
      requires Ready() && KeysOk(keys) && |x| == 64 && f == Fn()
      ensures |y| == 64 && y == Crypt(f, keys, n, x)
    {
      var h := Initial(standard, tables, x);
      var i := 0;
      while i < n
        invariant i <= n && HalvesOk(h) && h == Passes(f, keys, i, Enter(x))
      {
        h := OnePass(keys, h, f);
        i := i + 1;
      }
      y := Final(standard, tables, h);
    }

    /** Sixteen rounds; the last leaves its halves unswapped */
    method OnePass(keys: seq<RoundKey>, h: Halves, ghost f: RoundFn) returns (g: Halves)
      requires Ready() && KeysOk(keys) && HalvesOk(h) && f == Fn()
      ensures g == Pass(f, keys, h)
    {
      var l, r := h.l, h.r;
      var i := 0;
      while i < |keys|
        invariant i <= |keys| && |l| == |r| == 32 && Halves(l, r) == Rounds(f, keys[..i], h)
      {
        assert keys[..i + 1][..i] == keys[..i];
        var x, _ := Mangle(standard, tables, saltbits, r, keys[i]);
        assert x == Applied(f, r, keys[i]);
        l, r := r, Xor(x, l);
        i := i + 1;
      }
      assert keys[..|keys|] == keys;
      g := Halves(r, l);
    }
  }

  lemma ManglerSteady(s: Boxes, pbox: seq<nat>, salt: bits, ks: seq<RoundKey>)
    requires BoxesOk(s) && PBoxOk(pbox) && |salt| == 24
    ensures Steady(Mangler(s, pbox, salt), ks)
  {
  }

  lemma {:induction false} ZeroSalt(n: nat)
    ensures SaltBits(0, n) == Zero(n)
  {
    if n > 0 {
      ZeroSalt(n - 1);
    }
  }

  /** The keys do_des takes for a count */
  function KeysFor(ks: seq<RoundKey>, n: int): seq<RoundKey> {
    if n > 0 then ks else Rev(ks)
  }

  /**
   do_des with count -n undoes do_des with count n, for every block, key, salt and
   n > 0, and the other way round; what lies between is the block of the standard,
   salted, with the schedule of that key.
   */
  method ThereAndBack(s: State, raw: bits, salt: nat, x: bits, n: int) returns (y: bits, z: bits)
    requires s.Valid() && |raw| == |x| == 64 && n != 0
    modifies s
    ensures s.Valid() && z == x
    ensures var c := s.standard;
      var f, ks := Mangler(c.sbox, c.pbox, SaltBits(salt, SALT_BITS)), KeysFor(Schedule(c, Permuted(c, raw), ROUNDS), n);
      y == Crypt(f, ks, Count(n), x) && Ciphered(f, ks, Count(n), x, y)
  {
    s.SetKey(raw);
    s.SetupSalt(salt);
    y, z := BackAgain(s, x, n, s.Fn());
    Traced(s.standard, SaltBits(salt, SALT_BITS), KeysFor(Schedule(s.standard, Permuted(s.standard, raw), ROUNDS), n), Count(n), x);
  }

  lemma Traced(c: Standard, salt: bits, ks: seq<RoundKey>, n: nat, x: bits)
    requires StandardOk(c) && |salt| == 24 && |x| == 64
    ensures var f := Mangler(c.sbox, c.pbox, salt); Ciphered(f, ks, n, x, Crypt(f, ks, n, x))
  {
    ManglerSteady(c.sbox, c.pbox, salt, ks);
    CryptTrace(Mangler(c.sbox, c.pbox, salt), ks, n, x);
  }

  method BackAgain(s: State, x: bits, n: int, ghost f: RoundFn) returns (y: bits, z: bits)
    requires s.Ready() && KeysOk(s.en) && KeysOk(s.de) && s.de == Rev(s.en) && |x| == 64 && n != 0 && f == s.Fn()
    ensures y == Crypt(f, KeysFor(s.en, n), Count(n), x) && z == x
  {
    var failed;
    failed, y := s.DoDes(x, n, f);
    failed, z := s.DoDes(y, -n, f);
    Undone(f, s.en, n, x);
  }

  lemma Undone(f: RoundFn, ks: seq<RoundKey>, n: int, x: bits)
    requires |x| == 64 && n != 0
    ensures Crypt(f, KeysFor(ks, -n), Count(n), Crypt(f, KeysFor(ks, n), Count(n), x)) == x
  {
    RevRev(ks);
    CryptBack(f, KeysFor(ks, n), Count(n), x);
  }

  lemma RevRev(ks: seq<RoundKey>)
    ensures Rev(Rev(ks)) == ks
  {
  }
}
