/**
 Words as strings of bits, most significant first, and the bit permutations that
 the code reads out of tables of OR-masks.
 */
module DesBits {

  type bits = seq<bool>

  function Zero(n: nat): bits {
    seq(n, i => false)
  }

  function Or(a: bits, b: bits): (r: bits)
    requires |a| == |b|
    ensures |r| == |a|
  {
    seq(|a|, i requires 0 <= i < |a| => a[i] || b[i])
  }

  function Xor(a: bits, b: bits): (r: bits)
    requires |a| == |b|
    ensures |r| == |a|
  {
    seq(|a|, i requires 0 <= i < |a| => a[i] != b[i])
  }

  function And(a: bits, b: bits): (r: bits)
    requires |a| == |b|
    ensures |r| == |a|
  {
    seq(|a|, i requires 0 <= i < |a| => a[i] && b[i])
  }

  lemma XorTwice(a: bits, k: bits)
    requires |a| == |k|
    ensures Xor(Xor(a, k), k) == a && Xor(k, Xor(k, a)) == a
  {
  }

  /** The mask with bit o set too, if there is such a bit */
  function Set(m: bits, o: nat, v: bool): (r: bits)
    ensures |r| == |m|
  {
    if v && o < |m| then m[o := true] else m
  }

  /** The bits of x moved to the places p gives them, in a word of n bits; places past the end are dropped */
  function Scatter(p: seq<nat>, n: nat, x: bits): (r: bits)
    requires |p| == |x|
    ensures |r| == n
  {
    if x == [] then Zero(n) else
      var m := |x| - 1; Set(Scatter(p[..m], n, x[..m]), p[m], x[m])
  }

  lemma OrSet(a: bits, b: bits, o: nat, v: bool)
    requires |a| == |b|
    ensures Or(a, Set(b, o, v)) == Set(Or(a, b), o, v)
  {
  }

  /** The masks of two groups of bits, combined */
  lemma {:induction false} ScatterOr(p: seq<nat>, q: seq<nat>, n: nat, x: bits, y: bits)
    requires |p| == |x| && |q| == |y|
    ensures Or(Scatter(p, n, x), Scatter(q, n, y)) == Scatter(p + q, n, x + y)
    decreases |y|
  {
    if y == [] {
      assert p + q == p && x + y == x;
    } else {
      var m := |y| - 1;
      ScatterOr(p, q[..m], n, x, y[..m]);
      OrSet(Scatter(p, n, x), Scatter(q[..m], n, y[..m]), q[m], y[m]);
      assert (p + q)[..|x| + m] == p + q[..m] && (x + y)[..|x| + m] == x + y[..m];
    }
  }

  /** A bit whose place no other bit takes is at its place */
  lemma {:induction false} ScatterAt(p: seq<nat>, n: nat, x: bits, b: nat)
    requires |p| == |x| && b < |x| && p[b] < n && forall j :: 0 <= j < |p| && j != b ==> p[j] != p[b]
    ensures Scatter(p, n, x)[p[b]] == x[b]
    decreases |x|
  {
    var m := |x| - 1;
    if b < m {
      ScatterAt(p[..m], n, x[..m], b);
    } else {
      ScatterMisses(p[..m], n, x[..m], p[m]);
    }
  }

  lemma {:induction false} ScatterMisses(p: seq<nat>, n: nat, x: bits, o: nat)
    requires |p| == |x| && o < n && o !in p
    ensures !Scatter(p, n, x)[o]
    decreases |x|
  {
    if x != [] {
      var m := |x| - 1;
      ScatterMisses(p[..m], n, x[..m], o);
    }
  }

  /** All of p's entries are places in a word of n bits */
  ghost predicate Within(p: seq<nat>, n: nat) {
    forall i :: 0 <= i < |p| ==> p[i] < n
  }

  /** The bit selection that a table of a standard prescribes: bit i of the result is bit p[i] of x */
  function Select(p: seq<nat>, x: bits): (r: bits)
    requires forall i :: 0 <= i < |p| ==> p[i] < |x|
    ensures |r| == |p| && forall i :: 0 <= i < |p| ==> r[i] == x[p[i]]
  {
    seq(|p|, i requires 0 <= i < |p| => x[p[i]])
  }

  ghost predicate Injective(p: seq<nat>) {
    forall i, j :: 0 <= i < j < |p| ==> p[i] != p[j]
  }

  /** q gives every bit that p selects its place, and all others a place past the end */
  ghost predicate Inverts(p: seq<nat>, q: seq<nat>) {
    && (forall i :: 0 <= i < |p| ==> p[i] < |q| && q[p[i]] == i)
    && (forall o :: 0 <= o < |q| && q[o] < |p| ==> p[q[o]] == o)
  }

  /** Moving the bits to the places of the inverted table is the selection */
  lemma ScatterSelects(p: seq<nat>, q: seq<nat>, x: bits)
    requires Inverts(p, q) && |x| == |q|
    ensures Within(p, |x|) && Scatter(q, |p|, x) == Select(p, x)
  {
    forall i | 0 <= i < |p|
      ensures Scatter(q, |p|, x)[i] == x[p[i]]
    {
      PlaceTaken(p, q, i);
      ScatterAt(q, |p|, x, p[i]);
    }
  }

  lemma PlaceTaken(p: seq<nat>, q: seq<nat>, i: nat)
    requires Inverts(p, q) && i < |p|
    ensures forall j :: 0 <= j < |q| && j != p[i] ==> q[j] != q[p[i]]
  {
    forall j | 0 <= j < |q| && j != p[i]
      ensures q[j] != i
    {
      assert q[j] < |p| ==> p[q[j]] == j;
    }
  }

  /** Selecting by a permutation and by its inverse */
  lemma SelectBack(p: seq<nat>, q: seq<nat>, x: bits)
    requires Inverts(p, q) && Within(p, |x|) && Within(q, |p|) && |p| == |q| == |x|
    ensures Select(q, Select(p, x)) == x
  {
  }
}
