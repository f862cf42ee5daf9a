/** Types and sequence functions that several models share. */
module Common {

  type byte = x: int | 0 <= x < 256

  type bytes = seq<byte>

  datatype Option<T> = None | Some(value: T)

  function Pow2(n: nat): (p: nat)
    ensures p > 0
  {
    if n == 0 then 1 else 2 * Pow2(n - 1)
  }

  function Pow256(n: nat): (p: nat)
    ensures p > 0
  {
    if n == 0 then 1 else 256 * Pow256(n - 1)
  }

  lemma MulMono(x: int, y: int, z: int)
    requires x <= y && 0 <= z
    ensures x * z <= y * z
  {}

  /** Quotient and remainder are determined by the equation */
  lemma DivModUnique(x: int, m: int, q: int, r: int)
    requires m > 0 && 0 <= r < m && x == q * m + r
    ensures x / m == q && x % m == r
  {
    var q', r' := x / m, x % m;
    assert x == m * q' + r';
    if q' > q {
      assert (q + 1) * m == q * m + m;
      MulMono(q + 1, q', m);
    } else if q' < q {
      assert (q' + 1) * m == q' * m + m;
      MulMono(q' + 1, q, m);
    }
  }

  /** Dividing by a and then by d */
  lemma DivThen(x: nat, a: nat, d: nat)
    requires a > 0 && d > 0
    ensures a * d > 0 && x / a / d == x / (a * d)
  {
    var q, b := x / a, x % a;
    assert x == a * q + b;
    var u, v := q / d, q % d;
    assert q == d * u + v;
    MulMono(v + 1, d, a);
    assert (v + 1) * a == a * v + a && d * a == a * d;
    MulMono(1, d, a);
    Regroup(a, d, u, v);
    MulMono(0, v, a);
    DivModUnique(x, a * d, u, a * v + b);
  }

  lemma Regroup(a: int, d: int, u: int, v: int)
    ensures a * (d * u + v) == u * (a * d) + a * v
  {
    assert a * (d * u + v) == a * (d * u) + a * v;
    assert a * (d * u) == u * (a * d);
  }

  function Rev<T>(s: seq<T>): (r: seq<T>)
    ensures |r| == |s| && forall i :: 0 <= i < |s| ==> r[i] == s[|s| - 1 - i]
  {
    if s == [] then [] else [s[|s| - 1]] + Rev(s[..|s| - 1])
  }

  lemma RevCons<T>(x: T, s: seq<T>)
    ensures Rev([x] + s) == Rev(s) + [x]
  {
  }

  lemma RevSnoc<T>(s: seq<T>, x: T)
    ensures Rev(s + [x]) == [x] + Rev(s)
  {
  }

  /** The pieces a stream was cut into, joined */
  function Concat<T>(ps: seq<seq<T>>): seq<T> {
    if ps == [] then [] else Concat(ps[..|ps| - 1]) + ps[|ps| - 1]
  }

  lemma ConcatNext<T>(ps: seq<seq<T>>, i: nat)
    requires i < |ps|
    ensures Concat(ps[..i + 1]) == Concat(ps[..i]) + ps[i]
  {
    assert ps[..i + 1][..i] == ps[..i];
  }

  /** A stream cut at the given offsets; one that is out of order or past the end cuts off an empty piece */
  function Cut<T>(s: seq<T>, at: seq<nat>): seq<seq<T>>
    decreases |at|
  {
    if at == [] then [s] else
      var k := at[|at| - 1];
      var n := if k < |s| then k else |s|;
      Cut(s[..n], at[..|at| - 1]) + [s[n..]]
  }

  lemma {:induction false} ConcatCut<T>(s: seq<T>, at: seq<nat>)
    ensures Concat(Cut(s, at)) == s
    decreases |at|
  {
    var ps := Cut(s, at);
    if at == [] {
      assert ps[..0] == [];
      assert Concat(ps) == [] + s;
    } else {
      var k := at[|at| - 1];
      var n := if k < |s| then k else |s|;
      ConcatCut(s[..n], at[..|at| - 1]);
      assert ps[..|ps| - 1] == Cut(s[..n], at[..|at| - 1]);
      assert s[..n] + s[n..] == s;
    }
  }
}
