/** The rounds of DES with crypt's salt, for any S-boxes and any key schedule. */
module DesSpec {

  import opened Common
  import opened DesBits
  import opened DesTables

  /** Two 24-bit halves of a round key */
  datatype RoundKey = RoundKey(kl: bits, kr: bits)

  datatype Halves = Halves(l: bits, r: bits)

  predicate KeysOk(ks: seq<RoundKey>) {
    forall i :: 0 <= i < |ks| ==> |ks[i].kl| == 24 && |ks[i].kr| == 24
  }

  predicate HalvesOk(h: Halves) {
    |h.l| == 32 && |h.r| == 32
  }

  // ---------------------------------------------------------------- the round function

  /** The 48 bits the code gathers with masks and shifts */
  function Expand(r: bits): (e: bits)
    requires |r| == 32
    ensures |e| == 48
  {
    [r[31]] + r[0..5] + r[3..9] + r[7..13] + r[11..17] + r[15..21] + r[19..25] + r[23..29] + r[27..32] + [r[0]]
  }

  /** They are the E bit selection of FIPS 46-3: rows of six, each overlapping its neighbours */
  lemma ExpandSelects(r: bits, row: nat, col: nat)
    requires |r| == 32 && row < 8 && col < 6
    ensures Expand(r)[6 * row + col] == r[(4 * row + col + 31) % 32]
  {
    if row == 0 {
      ExpandRow0(r, col);
    } else if row == 7 {
      ExpandRow7(r, col);
    } else {
      ExpandRow(r, row, col);
      Wrap(4 * row + col);
    }
  }

  lemma Wrap(n: nat)
    requires 1 <= n < 33
    ensures (n + 31) % 32 == n - 1
  {
  }

  lemma ExpandRow0(r: bits, col: nat)
    requires |r| == 32 && col < 6
    ensures Expand(r)[col] == r[(col + 31) % 32]
  {
    assert Expand(r)[..6] == [r[31]] + r[0..5];
  }

  lemma ExpandRow7(r: bits, col: nat)
    requires |r| == 32 && col < 6
    ensures Expand(r)[42 + col] == r[(28 + col + 31) % 32]
  {
    assert Expand(r)[42..] == r[27..32] + [r[0]];
  }

  lemma ExpandRow(r: bits, row: nat, col: nat)
    requires |r| == 32 && 0 < row < 7 && col < 6
    ensures Expand(r)[6 * row + col] == r[4 * row + col - 1]
  {
    assert Expand(r)[6 * row..6 * row + 6] == r[4 * row - 1..4 * row + 5];
  }

  /** The expanded half, salted and mixed with the round key */
  function Keyed(salt: bits, r: bits, k: RoundKey): (x: bits)
    requires |salt| == 24 && |r| == 32 && |k.kl| == 24 && |k.kr| == 24
    ensures |x| == 48
  {
    var e := Expand(r);
    var s := And(Xor(e[..24], e[24..]), salt);
    Xor(e[..24], Xor(s, k.kl)) + Xor(e[24..], Xor(s, k.kr))
  }

  /** Bit i of the E bit selection */
  function EBit(r: bits, i: nat): bool
    requires |r| == 32
  {
    r[(4 * (i / 6) + i % 6 + 31) % 32]
  }

  lemma ExpandBit(r: bits, i: nat)
    requires |r| == 32 && i < 48
    ensures Expand(r)[i] == EBit(r, i)
  {
    ExpandSelects(r, i / 6, i % 6);
    assert 6 * (i / 6) + i % 6 == i;
  }

  /** Bits i and i + 24 of what enters the S-boxes: a set salt bit exchanges the two expanded bits */
  ghost predicate Salted(salt: bits, r: bits, k: RoundKey, x: bits, i: nat)
    requires |salt| == 24 && |r| == 32 && |k.kl| == 24 && |k.kr| == 24 && |x| == 48 && i < 24
  {
    && x[i] == (EBit(r, if salt[i] then i + 24 else i) != k.kl[i])
    && x[i + 24] == (EBit(r, if salt[i] then i else i + 24) != k.kr[i])
  }

  ghost predicate Entering(salt: bits, r: bits, k: RoundKey, x: bits) {
    && |salt| == 24 && |r| == 32 && |k.kl| == 24 && |k.kr| == 24 && |x| == 48
    && forall i {:trigger Salted(salt, r, k, x, i)} :: 0 <= i < 24 ==> Salted(salt, r, k, x, i)
  }

  lemma KeyedBits(salt: bits, r: bits, k: RoundKey)
    requires |salt| == 24 && |r| == 32 && |k.kl| == 24 && |k.kr| == 24
    ensures Entering(salt, r, k, Keyed(salt, r, k))
  {
    var x := Keyed(salt, r, k);
    forall i | 0 <= i < 24
      ensures Salted(salt, r, k, x, i)
    {
      KeyedAt(salt, r, k, i);
      ExpandBit(r, i);
      ExpandBit(r, i + 24);
    }
  }

  lemma KeyedAt(salt: bits, r: bits, k: RoundKey, i: nat)
    requires |salt| == 24 && |r| == 32 && |k.kl| == 24 && |k.kr| == 24 && i < 24
    ensures var e, x := Expand(r), Keyed(salt, r, k);
      && x[i] == ((if salt[i] then e[i + 24] else e[i]) != k.kl[i])
      && x[i + 24] == ((if salt[i] then e[i] else e[i + 24]) != k.kr[i])
  {
  }

  /** The S-boxes on 48 bits, the i-th on the i-th six bits */
  function Substitute(s: Boxes, x: bits): (y: bits)
    requires BoxesOk(s) && |x| == 48
    ensures |y| == 32
  {
    BoxPair(s, 0, x[..12]) + BoxPair(s, 1, x[12..24]) + BoxPair(s, 2, x[24..36]) + BoxPair(s, 3, x[36..])
  }

  /** Bit p of what the S-boxes put out: box p / 4 has four bits, and gives the entry its six bits point to */
  function SBit(s: Boxes, x: bits, p: nat): bool
    requires BoxesOk(s) && |x| == 48 && p < 32
  {
    PowerSix();
    s[p / 4][RowColumn(x, 6 * (p / 4))][p % 4]
  }

  lemma SubstituteAt(s: Boxes, x: bits, p: nat)
    requires BoxesOk(s) && |x| == 48 && p < 32
    ensures Substitute(s, x)[p] == SBit(s, x, p)
  {
    var b, h, q := p / 8, p % 8 / 4, p % 4;
    assert p == 8 * b + 4 * h + q && p / 4 == 2 * b + h;
    BoxBit(s, x, b, h, q);
  }

  lemma BoxBit(s: Boxes, x: bits, b: nat, h: nat, q: nat)
    requires BoxesOk(s) && |x| == 48 && b < 4 && h < 2 && q < 4
    ensures RowColumn(x, 6 * (2 * b + h)) < |s[2 * b + h]|
    ensures Substitute(s, x)[8 * b + (4 * h + q)] == s[2 * b + h][RowColumn(x, 6 * (2 * b + h))][q]
  {
    BoxOf(s, x, b, h, q, 6 * (2 * b + h));
    BoxRead(s, 2 * b + h, x, 6 * (2 * b + h), q);
  }

  lemma BoxRead(s: Boxes, i: nat, x: bits, o: nat, q: nat)
    requires BoxesOk(s) && i < 8 && o + 6 <= |x| && q < 4
    ensures RowColumn(x, o) < |s[i]| && Box(s, i, x[o..o + 6])[q] == s[i][RowColumn(x, o)][q]
  {
    SixBits(x, o, 6, 0);
    BoxAt(s, i, x[o..o + 6]);
  }

  lemma BoxOf(s: Boxes, x: bits, b: nat, h: nat, q: nat, o: nat)
    requires BoxesOk(s) && |x| == 48 && b < 4 && h < 2 && q < 4 && o == 6 * (2 * b + h)
    ensures Substitute(s, x)[8 * b + (4 * h + q)] == Box(s, 2 * b + h, x[o..o + 6])[q]
  {
    PairOf(s, x, b, 4 * h + q);
    HalfOf(s, x, b, h, q);
  }

  lemma HalfOf(s: Boxes, x: bits, b: nat, h: nat, q: nat)
    requires BoxesOk(s) && |x| == 48 && b < 4 && h < 2 && q < 4
    ensures var o := 6 * (2 * b + h); BoxPair(s, b, x[12 * b..12 * b + 12])[4 * h + q] == Box(s, 2 * b + h, x[o..o + 6])[q]
  {
    PairHalf(s, b, x[12 * b..12 * b + 12], h, q);
    SliceOf(x, 12 * b, 6 * h);
  }

  lemma SliceOf(x: bits, o: nat, i: nat)
    requires o + 12 <= |x| && i <= 6
    ensures x[o..o + 12][i..i + 6] == x[o + i..o + i + 6]
  {
    var y, z := x[o..o + 12][i..i + 6], x[o + i..o + i + 6];
    assert forall j :: 0 <= j < 6 ==> y[j] == z[j];
  }

  lemma SixBits(x: bits, o: nat, n: nat, i: nat)
    requires o + n <= |x| && i + 6 <= n
    ensures RowColumn(x[o..o + n], i) == RowColumn(x, o + i)
  {
    var y := x[o..o + n];
    assert y[i] == x[o + i] && y[i + 1] == x[o + i + 1] && y[i + 2] == x[o + i + 2];
    assert y[i + 3] == x[o + i + 3] && y[i + 4] == x[o + i + 4] && y[i + 5] == x[o + i + 5];
  }

  /** The pair of boxes that gives bit 8 b + q */
  lemma PairOf(s: Boxes, x: bits, b: nat, q: nat)
    requires BoxesOk(s) && |x| == 48 && b < 4 && q < 8
    ensures Substitute(s, x)[8 * b + q] == BoxPair(s, b, x[12 * b..12 * b + 12])[q]
  {
    if b == 0 {
      assert x[0..12] == x[..12];
    } else if b == 3 {
      assert x[36..48] == x[36..];
    } else if b == 1 {
      assert x[12 * b..12 * b + 12] == x[12..24];
    } else {
      assert x[12 * b..12 * b + 12] == x[24..36];
    }
  }

  lemma PairHalf(s: Boxes, b: nat, y: bits, h: nat, q: nat)
    requires BoxesOk(s) && b < 4 && |y| == 12 && h < 2 && q < 4
    ensures BoxPair(s, b, y)[4 * h + q] == Box(s, 2 * b + h, y[6 * h..6 * h + 6])[q]
  {
    if h == 0 {
      assert y[0..6] == y[..6];
    } else {
      assert y[6..12] == y[6..];
    }
  }

  /** The P table, counted from 0 */
  ghost predicate PBoxOk(p: seq<nat>) {
    |p| == 32 && Within(p, 32) && Injective(p)
  }

  /** f: expand, salt, mix with the key, substitute, permute */
  function F(s: Boxes, pbox: seq<nat>, salt: bits, r: bits, k: RoundKey): (f: bits)
    requires BoxesOk(s) && PBoxOk(pbox) && |salt| == 24 && |r| == 32 && |k.kl| == 24 && |k.kr| == 24
    ensures |f| == 32
  {
    Select(pbox, Substitute(s, Keyed(salt, r, k)))
  }

  /** The round function bit by bit: bit i is the S-box bit that P selects, of the 48 bits that enter */
  lemma FBits(s: Boxes, pbox: seq<nat>, salt: bits, r: bits, k: RoundKey, i: nat)
    requires BoxesOk(s) && PBoxOk(pbox) && |salt| == 24 && |r| == 32 && |k.kl| == 24 && |k.kr| == 24 && i < 32
    ensures pbox[i] < 32 && F(s, pbox, salt, r, k)[i] == SBit(s, Keyed(salt, r, k), pbox[i])
  {
    SubstituteAt(s, Keyed(salt, r, k), pbox[i]);
  }

  /** A round function, of 32 bits and a round key */
  type RoundFn = (bits, RoundKey) -> bits

  /** The round function with these S-boxes and salt, as a value */
  function Mangler(s: Boxes, pbox: seq<nat>, salt: bits): RoundFn
    requires BoxesOk(s) && PBoxOk(pbox) && |salt| == 24
  {
    (r: bits, k: RoundKey) => if |r| == 32 && |k.kl| == 24 && |k.kr| == 24 then F(s, pbox, salt, r, k) else Zero(32)
  }

  function Applied(f: RoundFn, r: bits, k: RoundKey): (x: bits)
    ensures |x| == 32
  {
    if |f(r, k)| == 32 then f(r, k) else Zero(32)
  }

  function Round(f: RoundFn, k: RoundKey, h: Halves): (g: Halves)
    requires HalvesOk(h)
    ensures HalvesOk(g)
  {
    Halves(h.r, Xor(Applied(f, h.r, k), h.l))
  }

  // ---------------------------------------------------------------- rounds and their inverse

  function Rounds(f: RoundFn, ks: seq<RoundKey>, h: Halves): (g: Halves)
    requires HalvesOk(h)
    ensures HalvesOk(g)
  {
    if ks == [] then h else
      var m := |ks| - 1; Round(f, ks[m], Rounds(f, ks[..m], h))
  }

  function Swap(h: Halves): Halves {
    Halves(h.r, h.l)
  }

  function Pass(f: RoundFn, ks: seq<RoundKey>, h: Halves): (g: Halves)
    requires HalvesOk(h)
    ensures HalvesOk(g)
  {
    Swap(Rounds(f, ks, h))
  }

  /** A round undoes itself on swapped halves */
  lemma RoundBack(f: RoundFn, k: RoundKey, h: Halves)
    requires HalvesOk(h)
    ensures Round(f, k, Swap(Round(f, k, h))) == Swap(h)
  {
    XorTwice(h.l, Applied(f, h.r, k));
  }

  lemma {:induction false} RoundsFirst(f: RoundFn, k: RoundKey, ks: seq<RoundKey>, h: Halves)
    requires HalvesOk(h)
    ensures Rounds(f, [k] + ks, h) == Rounds(f, ks, Round(f, k, h))
    decreases |ks|
  {
    var all := [k] + ks;
    if ks == [] {
      assert all[..0] == [] && all == [k];
    } else {
      var m := |ks| - 1;
      assert all[..m + 1] == [k] + ks[..m];
      RoundsFirst(f, k, ks[..m], h);
    }
  }

  /** Rounds with the keys reversed undo rounds, up to the swap */
  lemma {:induction false} RoundsBack(f: RoundFn, ks: seq<RoundKey>, h: Halves)
    requires HalvesOk(h)
    ensures Rounds(f, Rev(ks), Swap(Rounds(f, ks, h))) == Swap(h)
    decreases |ks|
  {
    if ks != [] {
      var m := |ks| - 1;
      var k, g := ks[m], Rounds(f, ks[..m], h);
      RoundsBack(f, ks[..m], h);
      RoundBack(f, k, g);
      RoundsFirst(f, k, Rev(ks[..m]), Swap(Round(f, k, g)));
    }
  }

  /** n passes, without permutations between them */
  function Passes(f: RoundFn, ks: seq<RoundKey>, n: nat, h: Halves): (g: Halves)
    requires HalvesOk(h)
    ensures HalvesOk(g)
  {
    if n == 0 then h else Pass(f, ks, Passes(f, ks, n - 1, h))
  }

  lemma {:induction false} PassesFirst(f: RoundFn, ks: seq<RoundKey>, n: nat, h: Halves)
    requires HalvesOk(h)
    ensures Passes(f, ks, n + 1, h) == Passes(f, ks, n, Pass(f, ks, h))
  {
    if n > 0 {
      PassesFirst(f, ks, n - 1, h);
    }
  }

  lemma {:induction false} PassesBack(f: RoundFn, ks: seq<RoundKey>, n: nat, h: Halves)
    requires HalvesOk(h)
    ensures Passes(f, Rev(ks), n, Passes(f, ks, n, h)) == h
  {
    if n > 0 {
      var g := Passes(f, ks, n - 1, h);
      RoundsBack(f, ks, g);
      PassesFirst(f, Rev(ks), n - 1, Pass(f, ks, g));
      PassesBack(f, ks, n - 1, h);
    }
  }

  // ---------------------------------------------------------------- the words the halves run through

  /** Each word is the round function of the one before it, mixed with the one before that */
  ghost predicate LadderStep(f: RoundFn, ks: seq<RoundKey>, w: seq<bits>, i: nat)
    requires i < |ks| && i + 2 < |w|
  {
    && |w[i]| == |w[i + 2]| == |f(w[i + 1], ks[i])| == 32
    && forall b :: 0 <= b < 32 ==> w[i + 2][b] == (f(w[i + 1], ks[i])[b] != w[i][b])
  }

  ghost predicate Ladder(f: RoundFn, ks: seq<RoundKey>, h: Halves, w: seq<bits>) {
    && 2 <= |w| <= |ks| + 2 && w[0] == h.l && w[1] == h.r
    && forall i {:trigger LadderStep(f, ks, w, i)} :: 0 <= i < |w| - 2 ==> LadderStep(f, ks, w, i)
  }

  /** A round function that gives 32 bits for halves of 32 bits and keys of the schedule */
  ghost predicate Steady(f: RoundFn, ks: seq<RoundKey>) {
    forall i, r: bits {:trigger f(r, ks[i])} :: 0 <= i < |ks| && |r| == 32 ==> |f(r, ks[i])| == 32
  }

  lemma {:induction false} RoundsLadder(f: RoundFn, ks: seq<RoundKey>, n: nat, h: Halves) returns (w: seq<bits>)
    requires HalvesOk(h) && Steady(f, ks) && n <= |ks|
    ensures |w| == n + 2 && Ladder(f, ks, h, w) && Rounds(f, ks[..n], h) == Halves(w[n], w[n + 1])
  {
    if n == 0 {
      w := [h.l, h.r];
    } else {
      var v := RoundsLadder(f, ks, n - 1, h);
      assert ks[..n][..n - 1] == ks[..n - 1];
      w := NextRung(f, ks, h, v);
    }
  }

  lemma NextRung(f: RoundFn, ks: seq<RoundKey>, h: Halves, v: seq<bits>) returns (w: seq<bits>)
    requires |v| < |ks| + 2 && Ladder(f, ks, h, v) && Steady(f, ks) && |v[|v| - 1]| == |v[|v| - 2]| == 32
    ensures w == v + [Xor(Applied(f, v[|v| - 1], ks[|v| - 2]), v[|v| - 2])] && Ladder(f, ks, h, w)
  {
    var n := |v| - 2;
    w := v + [Xor(Applied(f, v[n + 1], ks[n]), v[n])];
    forall i | 0 <= i < |w| - 2
      ensures LadderStep(f, ks, w, i)
    {
      assert i < n ==> LadderStep(f, ks, v, i);
    }
  }

  /** One pass: the ladder of all keys, with its last two words exchanged */
  ghost predicate Passed(f: RoundFn, ks: seq<RoundKey>, h: Halves, g: Halves) {
    exists w: seq<bits> :: |w| == |ks| + 2 && Ladder(f, ks, h, w) && g == Halves(w[|ks| + 1], w[|ks|])
  }

  lemma PassLadder(f: RoundFn, ks: seq<RoundKey>, h: Halves)
    requires HalvesOk(h) && Steady(f, ks)
    ensures Passed(f, ks, h, Pass(f, ks, h))
  {
    var w := RoundsLadder(f, ks, |ks|, h);
    assert ks[..|ks|] == ks;
    assert Ladder(f, ks, h, w);
  }

  // ---------------------------------------------------------------- the initial and final permutations

  /** IP counted from 0, which is also a bit's place after the final permutation */
  function FinalAt(i: nat): nat
    requires i < 64
    ensures FinalAt(i) < 64
  {
    8 * (7 - i % 8) + if i / 8 < 4 then 1 + 2 * (i / 8) else 2 * (i / 8 - 4)
  }

  function InitAt(b: nat): nat
    requires b < 64
    ensures InitAt(b) < 64
  {
    var col := b % 8;
    8 * (if col % 2 == 1 then col / 2 else 4 + col / 2) + 7 - b / 8
  }

  function FinalPerm(): seq<nat> {
    seq(64, i requires 0 <= i < 64 => FinalAt(i))
  }

  function InitPerm(): seq<nat> {
    seq(64, i requires 0 <= i < 64 => InitAt(i))
  }

  lemma Rows(q: nat, r: nat)
    requires r < 8
    ensures (8 * q + r) / 8 == q && (8 * q + r) % 8 == r
  {
  }

  lemma InitFinal(row: nat, col: nat)
    requires row < 8 && col < 8
    ensures InitAt(FinalAt(8 * row + col)) == 8 * row + col
  {
    Rows(row, col);
    var c := if row < 4 then 1 + 2 * row else 2 * (row - 4);
    Rows(7 - col, c);
    assert FinalAt(8 * row + col) == 8 * (7 - col) + c;
    assert if row < 4 then c % 2 == 1 && c / 2 == row else c % 2 == 0 && c / 2 == row - 4;
  }

  lemma FinalInit(row: nat, col: nat)
    requires row < 8 && col < 8
    ensures FinalAt(InitAt(8 * row + col)) == 8 * row + col
  {
    Rows(row, col);
    var q := if col % 2 == 1 then col / 2 else 4 + col / 2;
    Rows(q, 7 - row);
    assert InitAt(8 * row + col) == 8 * q + 7 - row;
  }

  lemma PermsInverse()
    ensures Inverts(InitPerm(), FinalPerm()) && Inverts(FinalPerm(), InitPerm())
  {
    forall i | 0 <= i < 64
      ensures InitPerm()[FinalPerm()[i]] == i && FinalPerm()[InitPerm()[i]] == i
    {
      InitFinal(i / 8, i % 8);
      FinalInit(i / 8, i % 8);
    }
  }

  /** The first column of IP as the standard prints it, eight to a row */
  function IpFirst(row: nat): nat
    requires row < 8
  {
    match row
    case 0 => 58
    case 1 => 60
    case 2 => 62
    case 3 => 64
    case 4 => 57
    case 5 => 59
    case 6 => 61
    case _ => 63
  }

  /** Each row of IP falls by eight from its first column */
  lemma IpTable(row: nat, col: nat)
    requires row < 8 && col < 8
    ensures FinalAt(8 * row + col) + 1 == IpFirst(row) - 8 * col
  {
    Rows(row, col);
  }

  /** The initial permutation: the selection by IP */
  function Enter(x: bits): (h: Halves)
    requires |x| == 64
    ensures HalvesOk(h)
  {
    var p := Select(FinalPerm(), x);
    Halves(p[..32], p[32..])
  }

  /** The final permutation: the selection by the inverse of IP */
  function Leave(h: Halves): (y: bits)
    requires HalvesOk(h)
    ensures |y| == 64
  {
    Select(InitPerm(), h.l + h.r)
  }

  lemma EnterLeave(x: bits, h: Halves)
    requires |x| == 64 && HalvesOk(h)
    ensures Leave(Enter(x)) == x && Enter(Leave(h)) == h
  {
    PermsInverse();
    var p := Select(FinalPerm(), x);
    assert p[..32] + p[32..] == p;
    SelectBack(FinalPerm(), InitPerm(), x);
    SelectBack(InitPerm(), FinalPerm(), h.l + h.r);
    assert (h.l + h.r)[..32] == h.l && (h.l + h.r)[32..] == h.r;
  }

  /** Everything do_des does to a 64-bit block, with n passes */
  function Crypt(f: RoundFn, ks: seq<RoundKey>, n: nat, x: bits): (y: bits)
    requires |x| == 64
    ensures |y| == 64
  {
    Leave(Passes(f, ks, n, Enter(x)))
  }

  /** Deciphering undoes enciphering, for every block, key schedule, round function and number of passes */
  lemma CryptBack(f: RoundFn, ks: seq<RoundKey>, n: nat, x: bits)
    requires |x| == 64
    ensures Crypt(f, Rev(ks), n, Crypt(f, ks, n, x)) == x
  {
    EnterLeave(x, Passes(f, ks, n, Enter(x)));
    PassesBack(f, ks, n, Enter(x));
  }

  /** The halves before the first pass and after each */
  ghost predicate PassesThrough(f: RoundFn, ks: seq<RoundKey>, hs: seq<Halves>) {
    forall j {:trigger PassStep(f, ks, hs, j)} :: 0 <= j < |hs| - 1 ==> PassStep(f, ks, hs, j)
  }

  ghost predicate PassStep(f: RoundFn, ks: seq<RoundKey>, hs: seq<Halves>, j: nat)
    requires j + 1 < |hs|
  {
    Passed(f, ks, hs[j], hs[j + 1])
  }

  /** Bit b of the halves is the bit of the block that IP names */
  ghost predicate ByIp(x: bits, h: Halves) {
    |x| == 64 && HalvesOk(h) && forall b {:trigger FinalAt(b)} :: 0 <= b < 64 ==> (h.l + h.r)[b] == x[FinalAt(b)]
  }

  /**
   y is x after n passes: IP gives the first halves, each pass leads to the next ones,
   and IP of y would give the last ones.
   */
  ghost predicate Ciphered(f: RoundFn, ks: seq<RoundKey>, n: nat, x: bits, y: bits) {
    exists hs: seq<Halves> :: |hs| == n + 1 && ByIp(x, hs[0]) && PassesThrough(f, ks, hs) && ByIp(y, hs[n])
  }

  lemma EnterIp(x: bits)
    requires |x| == 64
    ensures ByIp(x, Enter(x))
  {
    var h := Enter(x);
    assert h.l + h.r == Select(FinalPerm(), x);
  }

  lemma {:induction false} PassesTrace(f: RoundFn, ks: seq<RoundKey>, n: nat, h: Halves) returns (hs: seq<Halves>)
    requires HalvesOk(h) && Steady(f, ks)
    ensures |hs| == n + 1 && hs[0] == h && hs[n] == Passes(f, ks, n, h) && PassesThrough(f, ks, hs)
  {
    if n == 0 {
      hs := [h];
    } else {
      var gs := PassesTrace(f, ks, n - 1, h);
      hs := gs + [Passes(f, ks, n, h)];
      forall j | 0 <= j < n
        ensures PassStep(f, ks, hs, j)
      {
        if j < n - 1 {
          assert PassStep(f, ks, gs, j);
        } else {
          PassLadder(f, ks, gs[n - 1]);
        }
      }
    }
  }

  /** What do_des computes, word by word */
  lemma CryptTrace(f: RoundFn, ks: seq<RoundKey>, n: nat, x: bits)
    requires |x| == 64 && Steady(f, ks)
    ensures Ciphered(f, ks, n, x, Crypt(f, ks, n, x))
  {
    var hs := PassesTrace(f, ks, n, Enter(x));
    EnterIp(x);
    EnterLeave(x, hs[n]);
    EnterIp(Leave(hs[n]));
    assert PassesThrough(f, ks, hs);
  }
}
