/**
 The shared memory allocator of orafce: a table of at most 512 slots that tile
 one region, in no particular order. Addresses are offsets into the region.
 */
module Slots {

  /** list_item: one slot of the region */
  datatype Slot = Slot(size: nat, ptr: nat, free: bool)

  /** s tiles [lo, hi) from left to right, without gap, overlap or empty slot */
  ghost predicate Tiles(s: seq<Slot>, lo: nat, hi: nat) {
    if s == [] then lo == hi
    else s[0].ptr == lo && s[0].size > 0 && lo + s[0].size <= hi && Tiles(s[1..], lo + s[0].size, hi)
  }

  lemma {:induction false} TilesConcat(s: seq<Slot>, t: seq<Slot>, lo: nat, mid: nat, hi: nat)
    requires Tiles(s, lo, mid) && Tiles(t, mid, hi) && mid <= hi
    ensures Tiles(s + t, lo, hi)
  {
    if s == [] {
      assert s + t == t;
    } else {
      TilesConcat(s[1..], t, lo + s[0].size, mid, hi);
      assert (s + t)[1..] == s[1..] + t;
    }
  }

  /** Where the k-th tile starts is where the first k tiles end */
  lemma {:induction false} TilesCut(s: seq<Slot>, k: nat, lo: nat, hi: nat)
    requires Tiles(s, lo, hi) && k < |s|
    ensures lo <= s[k].ptr <= hi && s[k].size > 0 && s[k].ptr + s[k].size <= hi
    ensures Tiles(s[..k], lo, s[k].ptr) && Tiles(s[k + 1..], s[k].ptr + s[k].size, hi)
  {
    if k == 0 {
      assert s[..0] == [] && s[0 + 1..] == s[1..];
    } else {
      TilesCut(s[1..], k - 1, lo + s[0].size, hi);
      assert s[1..][..k - 1] == s[1..k] && s[..k][1..] == s[1..k];
      assert s[1..][k - 1 + 1..] == s[k + 1..];
    }
  }

  lemma TilesJoin(l: seq<Slot>, m: seq<Slot>, r: seq<Slot>, lo: nat, a: nat, b: nat, hi: nat)
    requires Tiles(l, lo, a) && Tiles(m, a, b) && Tiles(r, b, hi) && a <= b <= hi
    ensures Tiles(l + m + r, lo, hi)
  {
    TilesConcat(l, m, lo, a, b);
    TilesConcat(l + m, r, lo, b, hi);
  }

  /** Tiles further right start no earlier than earlier ones end */
  lemma TilesOrdered(s: seq<Slot>, i: nat, j: nat, lo: nat, hi: nat)
    requires Tiles(s, lo, hi) && i < j < |s|
    ensures s[i].ptr + s[i].size <= s[j].ptr && s[i].ptr < s[j].ptr
  {
    TilesCut(s, i, lo, hi);
    assert s[i + 1..][j - i - 1] == s[j];
    TilesCut(s[i + 1..], j - i - 1, s[i].ptr + s[i].size, hi);
  }

  ghost predicate Overlap(s: Slot, t: Slot) {
    s.ptr < t.ptr + t.size && t.ptr < s.ptr + s.size
  }

  /** Two different slots of a tiling do not overlap */
  lemma TilesDisjoint(s: seq<Slot>, x: Slot, y: Slot, lo: nat, hi: nat)
    requires Tiles(s, lo, hi) && x in s && y in s && x != y
    ensures !Overlap(x, y) && x.ptr != y.ptr
  {
    var i :| 0 <= i < |s| && s[i] == x;
    var j :| 0 <= j < |s| && s[j] == y;
    if i < j { TilesOrdered(s, i, j, lo, hi); } else { TilesOrdered(s, j, i, lo, hi); }
  }

  /** Every address of the region lies in some slot */
  lemma {:induction false} TilesCover(s: seq<Slot>, x: nat, lo: nat, hi: nat) returns (k: nat)
    requires Tiles(s, lo, hi) && lo <= x < hi
    ensures k < |s| && s[k].ptr <= x < s[k].ptr + s[k].size
  {
    if x < lo + s[0].size {
      k := 0;
    } else {
      k := TilesCover(s[1..], x, lo + s[0].size, hi);
      k := k + 1;
    }
  }

  // ---------------------------------------------------------------- sorting

  predicate Sorted(s: seq<Slot>) {
    forall i, j :: 0 <= i < j < |s| ==> s[i].ptr <= s[j].ptr
  }

  predicate StrictlySorted(s: seq<Slot>) {
    forall i, j :: 0 <= i < j < |s| ==> s[i].ptr < s[j].ptr
  }

  lemma TilesSorted(s: seq<Slot>, lo: nat, hi: nat)
    requires Tiles(s, lo, hi)
    ensures StrictlySorted(s)
  {
    forall i, j | 0 <= i < j < |s|
      ensures s[i].ptr < s[j].ptr
    {
      TilesOrdered(s, i, j, lo, hi);
    }
  }

  lemma TailMultiset(s: seq<Slot>)
    requires |s| > 0
    ensures multiset(s[1..]) == multiset(s) - multiset{s[0]}
  {
    assert s == [s[0]] + s[1..];
  }

  lemma SameTails(s: seq<Slot>, t: seq<Slot>)
    requires multiset(s) == multiset(t) && |s| > 0 && |t| > 0 && s[0] == t[0]
    ensures multiset(s[1..]) == multiset(t[1..])
  {
    TailMultiset(s);
    TailMultiset(t);
  }

  lemma SameLength(s: seq<Slot>, t: seq<Slot>)
    requires multiset(s) == multiset(t)
    ensures |s| == |t|
  {
    assert |s| == |multiset(s)| && |t| == |multiset(t)|;
  }

  /** A sorted arrangement of distinct addresses is unique */
  lemma {:induction false} SortedUnique(s: seq<Slot>, t: seq<Slot>)
    requires multiset(s) == multiset(t) && Sorted(s) && StrictlySorted(t)
    ensures s == t
  {
    SameLength(s, t);
    if |s| > 0 {
      SameFirst(s, t);
      SameTails(s, t);
      SortedUnique(s[1..], t[1..]);
      assert s == [s[0]] + s[1..] && t == [t[0]] + t[1..];
    }
  }

  lemma SameFirst(s: seq<Slot>, t: seq<Slot>)
    requires multiset(s) == multiset(t) && Sorted(s) && StrictlySorted(t) && |s| > 0 && |t| > 0
    ensures s[0] == t[0]
  {
    assert s[0] in multiset(t) && t[0] in multiset(s);
    var i :| 0 <= i < |t| && t[i] == s[0];
    var j :| 0 <= j < |s| && s[j] == t[0];
  }

  /** Insertion by address */
  function Insert(x: Slot, s: seq<Slot>): seq<Slot> {
    if s == [] || x.ptr <= s[0].ptr then [x] + s else [s[0]] + Insert(x, s[1..])
  }

  /** qsort with ptr_comp */
  function Sort(s: seq<Slot>): seq<Slot> {
    if s == [] then [] else Insert(s[0], Sort(s[1..]))
  }

  lemma {:induction false} InsertMultiset(x: Slot, s: seq<Slot>)
    ensures multiset(Insert(x, s)) == multiset{x} + multiset(s)
  {
    if s == [] || x.ptr <= s[0].ptr {
    } else {
      InsertMultiset(x, s[1..]);
      assert s == [s[0]] + s[1..];
    }
  }

  lemma {:induction false} InsertSorted(x: Slot, s: seq<Slot>)
    requires Sorted(s)
    ensures Sorted(Insert(x, s))
  {
    if s == [] || x.ptr <= s[0].ptr {
    } else {
      InsertSorted(x, s[1..]);
      InsertMultiset(x, s[1..]);
      var t := Insert(x, s[1..]);
      forall i | 0 <= i < |t|
        ensures s[0].ptr <= t[i].ptr
      {
        assert t[i] in multiset(t);
      }
    }
  }

  lemma {:induction false} SortProps(s: seq<Slot>)
    ensures Sorted(Sort(s)) && multiset(Sort(s)) == multiset(s)
  {
    if s != [] {
      SortProps(s[1..]);
      InsertMultiset(s[0], Sort(s[1..]));
      InsertSorted(s[0], Sort(s[1..]));
      assert s == [s[0]] + s[1..];
    }
  }

  // ---------------------------------------------------------------- merging

  /** One turn of the merging loop: x joins a free slot on its left, or follows it */
  function Absorb(acc: seq<Slot>, x: Slot): seq<Slot> {
    if |acc| > 0 && x.free && acc[|acc| - 1].free
    then acc[|acc| - 1 := acc[|acc| - 1].(size := acc[|acc| - 1].size + x.size)]
    else acc + [x]
  }

  /** The slots after defragmentation of a sorted table */
  function Merge(s: seq<Slot>): seq<Slot> {
    if s == [] then [] else Absorb(Merge(s[..|s| - 1]), s[|s| - 1])
  }

  /** The allocated blocks */
  function Live(s: seq<Slot>): set<Slot> {
    set x | x in s && !x.free
  }

  function FreeBytes(s: seq<Slot>): nat {
    if s == [] then 0 else FreeBytes(s[..|s| - 1]) + if s[|s| - 1].free then s[|s| - 1].size else 0
  }

  ghost predicate NoFreeNeighbours(s: seq<Slot>) {
    forall i :: 0 <= i < |s| - 1 ==> !(s[i].free && s[i + 1].free)
  }

  lemma AbsorbTiles(acc: seq<Slot>, x: Slot, lo: nat)
    requires Tiles(acc, lo, x.ptr) && x.size > 0 && lo <= x.ptr
    ensures Tiles(Absorb(acc, x), lo, x.ptr + x.size)
  {
    if |acc| > 0 && x.free && acc[|acc| - 1].free {
      var k := |acc| - 1;
      var y := acc[k].(size := acc[k].size + x.size);
      TilesCut(acc, k, lo, x.ptr);
      assert Tiles(acc[k + 1..], acc[k].ptr + acc[k].size, x.ptr);
      assert Tiles([y], acc[k].ptr, x.ptr + x.size) by { assert [y][1..] == []; }
      TilesConcat(acc[..k], [y], lo, acc[k].ptr, x.ptr + x.size);
      assert Absorb(acc, x) == acc[..k] + [y];
    } else {
      assert Tiles([x], x.ptr, x.ptr + x.size) by { assert [x][1..] == []; }
      TilesConcat(acc, [x], lo, x.ptr, x.ptr + x.size);
    }
  }

  lemma {:induction false} MergeTiles(s: seq<Slot>, lo: nat, hi: nat)
    requires Tiles(s, lo, hi)
    ensures Tiles(Merge(s), lo, hi)
  {
    if s != [] {
      var k := |s| - 1;
      TilesCut(s, k, lo, hi);
      MergeTiles(s[..k], lo, s[k].ptr);
      AbsorbTiles(Merge(s[..k]), s[k], lo);
      assert Tiles(s[k + 1..], s[k].ptr + s[k].size, hi);
    }
  }

  /** Coalescing leaves no two neighbouring free slots */
  lemma {:induction false} MergeNoFreeNeighbours(s: seq<Slot>)
    ensures NoFreeNeighbours(Merge(s))
  {
    if s != [] { MergeNoFreeNeighbours(s[..|s| - 1]); }
  }

  /** ... keeps the allocated blocks */
  lemma {:induction false} MergeLive(s: seq<Slot>)
    ensures Live(Merge(s)) == Live(s)
  {
    if s != [] {
      var k := |s| - 1;
      MergeLive(s[..k]);
      AbsorbLive(Merge(s[..k]), s[k]);
      assert s == s[..k] + [s[k]];
      assert Live(s) == Live(s[..k]) + (if s[k].free then {} else {s[k]});
    }
  }

  lemma AbsorbLive(acc: seq<Slot>, x: Slot)
    ensures Live(Absorb(acc, x)) == Live(acc) + (if x.free then {} else {x})
  {
    if |acc| > 0 && x.free && acc[|acc| - 1].free {
      var k := |acc| - 1;
      assert acc == acc[..k] + [acc[k]];
      assert Absorb(acc, x) == acc[..k] + [acc[k].(size := acc[k].size + x.size)];
    }
  }

  /** ... and the total of free bytes */
  lemma {:induction false} MergeFreeBytes(s: seq<Slot>)
    ensures FreeBytes(Merge(s)) == FreeBytes(s)
  {
    if s != [] {
      var k := |s| - 1;
      MergeFreeBytes(s[..k]);
      var acc := Merge(s[..k]);
      if |acc| > 0 && s[k].free && acc[|acc| - 1].free {
        assert Merge(s)[..|acc| - 1] == acc[..|acc| - 1];
      } else {
        assert Merge(s)[..|acc|] == acc;
      }
    }
  }

  /** Coalescing does nothing or shortens the table */
  lemma {:induction false} MergeShorter(s: seq<Slot>)
    ensures |Merge(s)| < |s| || Merge(s) == s
  {
    if s != [] {
      MergeShorter(s[..|s| - 1]);
      assert s == s[..|s| - 1] + [s[|s| - 1]];
    }
  }

  /** A free slot survives as part of a free slot */
  lemma {:induction false} MergeKeepsRoom(s: seq<Slot>, i: nat) returns (j: nat)
    requires i < |s| && s[i].free
    ensures j < |Merge(s)| && Merge(s)[j].free && Merge(s)[j].size >= s[i].size
  {
    var k := |s| - 1;
    var acc := Merge(s[..k]);
    if i == k {
      j := |Merge(s)| - 1;
    } else {
      j := MergeKeepsRoom(s[..k], i);
    }
  }

  // ---------------------------------------------------------------- when a request can be served

  const LIST_ITEMS := 512

  /** Some free slot has exactly a bytes */
  ghost predicate HasExact(s: seq<Slot>, a: nat) {
    exists x: Slot :: x in s && x.free && x.size == a
  }

  ghost predicate HasLarger(s: seq<Slot>, a: nat) {
    exists x: Slot :: x in s && x.free && x.size > a
  }

  /** An exact fit, or a larger slot and room in the table to split it */
  ghost predicate CanServe(s: seq<Slot>, a: nat) {
    HasExact(s, a) || (|s| < LIST_ITEMS && HasLarger(s, a))
  }

  /** What can be served before coalescing can be served after it */
  lemma MergeServes(s: seq<Slot>, a: nat)
    requires |s| <= LIST_ITEMS && CanServe(s, a)
    ensures CanServe(Merge(s), a)
  {
    MergeShorter(s);
    if Merge(s) != s {
      var x: Slot :| x in s && x.free && x.size >= a;
      var i :| 0 <= i < |s| && s[i] == x;
      var j := MergeKeepsRoom(s, i);
      if Merge(s)[j].size == a {
        assert HasExact(Merge(s), a);
      } else {
        assert HasLarger(Merge(s), a);
      }
    }
  }
}
