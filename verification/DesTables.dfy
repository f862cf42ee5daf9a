/**
 The tables that des_init fills: OR-masks for groups of bits, the inverted
 permutations they are made from, and pairs of S-boxes. A pair of masks for the
 left and the right word is one mask of both words here.
 */
module DesTables {

  import opened Common
  import opened DesBits

  // ---------------------------------------------------------------- bits as an index

  /** The number a group of bits spells */
  function Index(x: bits): (i: nat)
    ensures i < Pow2(|x|)
  {
    if x == [] then 0 else 2 * Index(x[..|x| - 1]) + if x[|x| - 1] then 1 else 0
  }

  /** The low g bits of a number, highest first */
  function BitsOf(i: nat, g: nat): (x: bits)
    ensures |x| == g
  {
    if g == 0 then [] else BitsOf(i / 2, g - 1) + [i % 2 == 1]
  }

  lemma {:induction false} BitsOfIndex(x: bits)
    ensures BitsOf(Index(x), |x|) == x
  {
    if x != [] {
      BitsOfIndex(x[..|x| - 1]);
      assert x == x[..|x| - 1] + [x[|x| - 1]];
    }
  }

  lemma IndexSnoc(a: bits, b: bool)
    ensures Index(a + [b]) == 2 * Index(a) + if b then 1 else 0
  {
    assert (a + [b])[..|a|] == a;
  }

  lemma Doubled(p: int, a: int)
    ensures (2 * p) * a == 2 * (p * a)
  {
  }

  /** Two groups of bits as one index */
  lemma {:induction false} IndexPair(a: bits, b: bits)
    ensures Index(a + b) == Pow2(|b|) * Index(a) + Index(b)
    decreases |b|
  {
    if b == [] {
      assert a + b == a;
    } else {
      var n := |b| - 1;
      IndexPair(a, b[..n]);
      assert a + b == (a + b[..n]) + [b[n]];
      IndexSnoc(a + b[..n], b[n]);
      Doubled(Pow2(n), Index(a));
    }
  }

  // ---------------------------------------------------------------- mask tables

  /** One row for each group of bits, with a mask for each value of the group */
  type Masks = seq<seq<bits>>

  /** One entry of a mask table, bit by bit */
  method Mask(p: seq<nat>, n: nat, x: bits) returns (m: bits)
    requires |p| == |x|
    ensures m == Scatter(p, n, x)
  {
    m := Zero(n);
    var j := 0;
    while j < |x|
      invariant j <= |x| && m == Scatter(p[..j], n, x[..j])
    {
      assert p[..j + 1][..j] == p[..j] && x[..j + 1][..j] == x[..j];
      if x[j] && p[j] < n {
        m := m[p[j] := true];
      }
      j := j + 1;
    }
    assert p[..|x|] == p && x[..|x|] == x;
  }

  ghost predicate FilledRow(row: seq<bits>, p: seq<nat>, n: nat) {
    |row| == Pow2(|p|) && forall i :: 0 <= i < |row| ==> row[i] == Scatter(p, n, BitsOf(i, |p|))
  }

  /** The rows hold the masks of p's groups of g places */
  ghost predicate Filled(t: Masks, p: seq<nat>, n: nat, g: nat) {
    if t == [] then p == []
    else g <= |p| && FilledRow(t[|t| - 1], p[|p| - g..], n) && Filled(t[..|t| - 1], p[..|p| - g], n, g)
  }

  method FillRow(p: seq<nat>, n: nat) returns (row: seq<bits>)
    ensures FilledRow(row, p, n)
  {
    row := [];
    var i := 0;
    while i < Pow2(|p|)
      invariant i <= Pow2(|p|) && |row| == i && forall j :: 0 <= j < i ==> row[j] == Scatter(p, n, BitsOf(j, |p|))
    {
      var m := Mask(p, n, BitsOf(i, |p|));
      row := row + [m];
      i := i + 1;
    }
  }

  /** The bits of k groups */
  function Times(g: nat, k: nat): nat {
    if k == 0 then 0 else Times(g, k - 1) + g
  }

  lemma {:induction false} TimesBelow(g: nat, i: nat, k: nat)
    requires i < k
    ensures Times(g, i) + g <= Times(g, k)
  {
    if i < k - 1 { TimesBelow(g, i, k - 1); }
  }

  /** The loops over k groups */
  method FillTable(p: seq<nat>, n: nat, g: nat, k: nat) returns (t: Masks)
    requires |p| == Times(g, k)
    ensures Filled(t, p, n, g)
  {
    t := [];
    var i, o := 0, 0;
    while i < k
      invariant i <= k && o == Times(g, i) <= |p| && Filled(t, p[..o], n, g)
    {
      TimesBelow(g, i, k);
      var row := FillRow(p[o..o + g], n);
      NextRow(t, row, p, o, g, n);
      t := t + [row];
      i, o := i + 1, o + g;
    }
    assert p[..o] == p;
  }

  lemma NextRow(t: Masks, row: seq<bits>, p: seq<nat>, o: nat, g: nat, n: nat)
    requires o + g <= |p| && Filled(t, p[..o], n, g) && FilledRow(row, p[o..o + g], n)
    ensures Filled(t + [row], p[..o + g], n, g)
  {
    assert (t + [row])[..|t|] == t && p[..o + g][..o] == p[..o] && p[..o + g][o..] == p[o..o + g];
  }

  /** A table that can be indexed by groups of g bits of a word of len bits */
  ghost predicate Shaped(t: Masks, n: nat, g: nat, len: nat) {
    if t == [] then len == 0
    else g <= len && RowShaped(t[|t| - 1], n, g) && Shaped(t[..|t| - 1], n, g, len - g)
  }

  ghost predicate RowShaped(row: seq<bits>, n: nat, g: nat) {
    |row| == Pow2(g) && forall i :: 0 <= i < |row| ==> |row[i]| == n
  }

  /** The masks at the groups of x, combined */
  function Read(t: Masks, n: nat, g: nat, x: bits): (r: bits)
    requires Shaped(t, n, g, |x|)
    ensures |r| == n
  {
    if t == [] then Zero(n)
    else var m := |x| - g; Or(Read(t[..|t| - 1], n, g, x[..m]), t[|t| - 1][Index(x[m..])])
  }

  lemma RowRead(row: seq<bits>, p: seq<nat>, n: nat, x: bits)
    requires FilledRow(row, p, n) && |x| == |p|
    ensures RowShaped(row, n, |p|) && row[Index(x)] == Scatter(p, n, x)
  {
    BitsOfIndex(x);
  }

  /** Combined reads of a filled table move the bits to their places */
  lemma {:induction false} ReadScatters(t: Masks, p: seq<nat>, n: nat, g: nat, x: bits)
    requires Filled(t, p, n, g) && |x| == |p|
    ensures Shaped(t, n, g, |x|) && Read(t, n, g, x) == Scatter(p, n, x)
  {
    if t != [] {
      var m := |x| - g;
      ReadScatters(t[..|t| - 1], p[..m], n, g, x[..m]);
      RowRead(t[|t| - 1], p[m..], n, x[m..]);
      SplitScatter(p, n, x, m);
    }
  }

  lemma SplitScatter(p: seq<nat>, n: nat, x: bits, m: nat)
    requires m <= |p| == |x|
    ensures Scatter(p, n, x) == Or(Scatter(p[..m], n, x[..m]), Scatter(p[m..], n, x[m..]))
  {
    ScatterOr(p[..m], p[m..], n, x[..m], x[m..]);
    assert p[..m] + p[m..] == p && x[..m] + x[m..] == x;
  }

  // ---------------------------------------------------------------- inverted permutations

  const NOWHERE: nat := 255

  /** A table inverted; the places of bits that are not selected hold 255 */
  method Invert(p: seq<nat>, n: nat) returns (q: seq<nat>)
    requires Injective(p) && Within(p, n) && |p| <= NOWHERE
    ensures |q| == n && Inverts(p, q) && forall o :: 0 <= o < n && o !in p ==> q[o] == NOWHERE
  {
    q := seq(n, i => NOWHERE);
    var i := 0;
    while i < |p|
      invariant i <= |p| && |q| == n && forall j :: 0 <= j < i ==> q[p[j]] == j
      invariant forall o :: 0 <= o < n ==> q[o] == NOWHERE || (q[o] < i && p[q[o]] == o)
    {
      q := q[p[i] := i];
      i := i + 1;
    }
  }

  /** By way of the masks of the inverted table, the combined reads are the selection */
  lemma ReadSelects(t: Masks, p: seq<nat>, q: seq<nat>, g: nat, x: bits)
    requires Inverts(p, q) && Filled(t, q, |p|, g) && |x| == |q|
    ensures Shaped(t, |p|, g, |x|) && Within(p, |x|) && Read(t, |p|, g, x) == Select(p, x)
  {
    ReadScatters(t, q, |p|, g, x);
    ScatterSelects(p, q, x);
  }

  /** Seven entries of each eight, without the one of the parity bit */
  function NoParity<T>(s: seq<T>, n: nat): (r: seq<T>)
    requires |s| == 8 * n
    ensures |r| == 7 * n
  {
    if n == 0 then [] else NoParity(s[..8 * n - 8], n - 1) + s[8 * n - 8..8 * n - 1]
  }

  /** No parity bit has a place in a word of n bits */
  ghost predicate ParityDropped(q: seq<nat>, n: nat) {
    forall o :: 0 <= o < |q| && o % 8 == 7 ==> q[o] >= n
  }

  /** The same, byte by byte */
  ghost predicate BytesDropped(q: seq<nat>, n: nat, k: nat)
    requires |q| == 8 * k
  {
    k == 0 || (q[8 * k - 1] >= n && BytesDropped(q[..8 * k - 8], n, k - 1))
  }

  lemma {:induction false} DropsBytes(q: seq<nat>, n: nat, k: nat)
    requires |q| == 8 * k && ParityDropped(q, n)
    ensures BytesDropped(q, n, k)
  {
    if k > 0 {
      assert (8 * k - 1) % 8 == 7;
      DropsBytes(q[..8 * k - 8], n, k - 1);
    }
  }

  /** Bits whose place is past the end need no entry */
  lemma {:induction false} ParityUnused(q: seq<nat>, n: nat, x: bits, k: nat)
    requires |q| == |x| == 8 * k && BytesDropped(q, n, k)
    ensures Scatter(NoParity(q, k), n, NoParity(x, k)) == Scatter(q, n, x)
    decreases k
  {
    if k > 0 {
      var m := 8 * k - 8;
      ParityUnused(q[..m], n, x[..m], k - 1);
      LastByte(q, n, x, m);
      LastSeven(q, n, x, k);
    }
  }

  lemma LastSeven(q: seq<nat>, n: nat, x: bits, k: nat)
    requires k > 0 && |q| == |x| == 8 * k
    ensures var m := 8 * k - 8;
      Scatter(NoParity(q, k), n, NoParity(x, k))
        == Or(Scatter(NoParity(q[..m], k - 1), n, NoParity(x[..m], k - 1)), Scatter(q[m..m + 7], n, x[m..m + 7]))
  {
    var m := 8 * k - 8;
    ScatterOr(NoParity(q[..m], k - 1), q[m..m + 7], n, NoParity(x[..m], k - 1), x[m..m + 7]);
  }

  lemma LastByte(q: seq<nat>, n: nat, x: bits, m: nat)
    requires |q| == |x| == m + 8 && q[m + 7] >= n
    ensures Scatter(q, n, x) == Or(Scatter(q[..m], n, x[..m]), Scatter(q[m..m + 7], n, x[m..m + 7]))
  {
    SplitScatter(q[..m + 7], n, x[..m + 7], m);
    assert q[..m + 7][..m] == q[..m] && q[..m + 7][m..] == q[m..m + 7];
    assert x[..m + 7][..m] == x[..m] && x[..m + 7][m..] == x[m..m + 7];
  }

  // ---------------------------------------------------------------- S-boxes

  /** Eight boxes of 64 entries of four bits, in the order of the standard: row, then column */
  type Boxes = seq<seq<bits>>

  ghost predicate BoxesOk(s: Boxes) {
    |s| == 8 && forall i :: 0 <= i < 8 ==> RowShaped(s[i], 4, 6)
  }

  /** The first and last bit give the row, the others the column */
  function Box(s: Boxes, i: nat, x: bits): (y: bits)
    requires BoxesOk(s) && i < 8 && |x| == 6
    ensures |y| == 4
  {
    s[i][Index([x[0], x[5], x[1], x[2], x[3], x[4]])]
  }

  function Bit(b: bool): nat {
    if b then 1 else 0
  }

  /** The entry the six bits of x from o on point to: 16 times the row, plus the column */
  function RowColumn(x: bits, o: nat): nat
    requires o + 6 <= |x|
  {
    16 * (2 * Bit(x[o]) + Bit(x[o + 5])) + 8 * Bit(x[o + 1]) + 4 * Bit(x[o + 2]) + 2 * Bit(x[o + 3]) + Bit(x[o + 4])
  }

  lemma PowerSix()
    ensures Pow2(3) == 8 && Pow2(6) == 64
  {
    assert Pow2(3) == 8;
  }

  lemma SixIndex(x: bits)
    requires |x| == 6
    ensures Index([x[0], x[5], x[1], x[2], x[3], x[4]]) == RowColumn(x, 0)
  {
    IndexSix(x[0], x[5], x[1], x[2], x[3], x[4]);
  }

  lemma IndexSix(a: bool, b: bool, c: bool, d: bool, e: bool, f: bool)
    ensures Index([a, b, c, d, e, f]) == 8 * (4 * Bit(a) + 2 * Bit(b) + Bit(c)) + 4 * Bit(d) + 2 * Bit(e) + Bit(f)
  {
    IndexThree(a, b, c);
    IndexThree(d, e, f);
    IndexPair([a, b, c], [d, e, f]);
    PowerSix();
    assert [a, b, c] + [d, e, f] == [a, b, c, d, e, f];
  }

  lemma BoxAt(s: Boxes, i: nat, x: bits)
    requires BoxesOk(s) && i < 8 && |x| == 6
    ensures RowColumn(x, 0) < |s[i]| && Box(s, i, x) == s[i][RowColumn(x, 0)]
  {
    SixIndex(x);
  }

  lemma IndexThree(a: bool, b: bool, c: bool)
    ensures Index([a, b, c]) == 4 * Bit(a) + 2 * Bit(b) + Bit(c)
  {
    IndexSnoc([], a);
    IndexSnoc([a], b);
    IndexSnoc([a, b], c);
    assert [] + [a] == [a] && [a] + [b] == [a, b] && [a, b] + [c] == [a, b, c];
  }

  /** One box with its input bits in order */
  ghost predicate Reordered(row: seq<bits>, s: Boxes, i: nat)
    requires BoxesOk(s) && i < 8
  {
    |row| == 64 && forall j :: 0 <= j < 64 ==> row[j] == Box(s, i, BitsOf(j, 6))
  }

  method Reorder(s: Boxes, i: nat) returns (row: seq<bits>)
    requires BoxesOk(s) && i < 8
    ensures Reordered(row, s, i)
  {
    row := [];
    var j := 0;
    while j < 64
      invariant j <= 64 && |row| == j && forall l :: 0 <= l < j ==> row[l] == Box(s, i, BitsOf(l, 6))
    {
      row := row + [Box(s, i, BitsOf(j, 6))];
      j := j + 1;
    }
  }

  /** Boxes 2b and 2b + 1 on twelve bits */
  function BoxPair(s: Boxes, b: nat, x: bits): (y: bits)
    requires BoxesOk(s) && b < 4 && |x| == 12
    ensures |y| == 8
  {
    Box(s, 2 * b, x[..6]) + Box(s, 2 * b + 1, x[6..])
  }

  /** One row of the paired boxes holds u[i] and v[j] at 64 i + j */
  ghost predicate Paired(row: seq<bits>, u: seq<bits>, v: seq<bits>)
    requires |v| == 64
  {
    |row| == 64 * |u| && forall i, j :: 0 <= i < |u| && 0 <= j < 64 ==> row[64 * i + j] == u[i] + v[j]
  }

  method PairRow(u: seq<bits>, v: seq<bits>) returns (row: seq<bits>)
    requires |v| == 64
    ensures Paired(row, u, v)
  {
    row := [];
    var i := 0;
    while i < |u|
      invariant i <= |u| && Paired(row, u[..i], v)
    {
      var more := Joined(u[i], v);
      row := row + more;
      i := i + 1;
    }
    assert u[..|u|] == u;
  }

  method Joined(a: bits, v: seq<bits>) returns (r: seq<bits>)
    ensures |r| == |v| && forall j :: 0 <= j < |v| ==> r[j] == a + v[j]
  {
    r := [];
    var j := 0;
    while j < |v|
      invariant j <= |v| && |r| == j && forall l :: 0 <= l < j ==> r[l] == a + v[l]
    {
      r := r + [a + v[j]];
      j := j + 1;
    }
  }

  /** The paired boxes, one row for each pair */
  ghost predicate PairsFilled(t: seq<seq<bits>>, s: Boxes)
    requires BoxesOk(s)
  {
    |t| == 4 && forall b :: 0 <= b < 4 ==> PairFilled(t[b], s, b)
  }

  ghost predicate PairFilled(row: seq<bits>, s: Boxes, b: nat)
    requires BoxesOk(s) && b < 4
  {
    exists u: seq<bits>, v: seq<bits> :: Reordered(u, s, 2 * b) && Reordered(v, s, 2 * b + 1) && Paired(row, u, v)
  }

  method FillPairs(s: Boxes) returns (t: seq<seq<bits>>)
    requires BoxesOk(s)
    ensures PairsFilled(t, s)
  {
    t := [];
    var b := 0;
    while b < 4
      invariant b <= 4 && |t| == b && forall l :: 0 <= l < b ==> PairFilled(t[l], s, l)
    {
      var u := Reorder(s, 2 * b);
      var v := Reorder(s, 2 * b + 1);
      var row := PairRow(u, v);
      assert PairFilled(row, s, b);
      t := t + [row];
      b := b + 1;
    }
  }

  /** A row of the paired boxes gives what the two boxes give */
  lemma PairRead(row: seq<bits>, s: Boxes, b: nat, x: bits)
    requires BoxesOk(s) && b < 4 && |x| == 12 && PairFilled(row, s, b)
    ensures Index(x) < |row| && row[Index(x)] == BoxPair(s, b, x)
  {
    var u: seq<bits>, v: seq<bits> :| Reordered(u, s, 2 * b) && Reordered(v, s, 2 * b + 1) && Paired(row, u, v);
    ReorderedRead(u, s, 2 * b, x[..6]);
    ReorderedRead(v, s, 2 * b + 1, x[6..]);
    assert x[..6] + x[6..] == x;
    IndexPair(x[..6], x[6..]);
    assert row[64 * Index(x[..6]) + Index(x[6..])] == u[Index(x[..6])] + v[Index(x[6..])];
  }

  lemma ReorderedRead(row: seq<bits>, s: Boxes, i: nat, x: bits)
    requires BoxesOk(s) && i < 8 && |x| == 6 && Reordered(row, s, i)
    ensures Pow2(6) == 64 && Index(x) < 64 && row[Index(x)] == Box(s, i, x)
  {
    PowerSix();
    BitsOfIndex(x);
  }
}
