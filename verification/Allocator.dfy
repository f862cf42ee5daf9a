/**
 ora_salloc, ora_sfree and ora_srealloc: best fit with splitting, and coalescing
 of free neighbours when nothing fits.
 */
module Allocator {
  import opened Common
  import opened Slots

  /** The sizes a request is rounded up to */
  const ASIZE: seq<nat> :=
    [32, 64, 96, 160, 256, 416, 672, 1088, 1760, 2848, 4608, 7456, 12064, 19520, 31584, 51104, 82688]

  /** align_size: the smallest entry that fits, or 0 where the source raises an error */
  method AlignSize(size: nat) returns (a: nat)
    ensures a == 0 <==> size > 82688
    ensures a != 0 ==> a in ASIZE && size <= a && forall x :: x in ASIZE && size <= x ==> a <= x
  {
    var i := 0;
    while i < 17
      invariant 0 <= i <= 17
      invariant forall j :: 0 <= j < i ==> ASIZE[j] < size
    {
      if ASIZE[i] >= size { return ASIZE[i]; }
      i := i + 1;
    }
    assert ASIZE[16] == 82688;
    return 0;
  }

  datatype Result = Block(ptr: nat) | Null | Error

  lemma InMultiset(s: seq<Slot>, t: seq<Slot>, x: Slot) returns (k: nat)
    requires multiset(s) == multiset(t) && x in s
    ensures k < |t| && t[k] == x
  {
    assert x in multiset(t);
    k :| 0 <= k < |t| && t[k] == x;
  }

  /** The table and the tiling with slot k, which is x, cut into y and z */
  lemma SplitTable(list: seq<Slot>, i: nat, t: seq<Slot>, k: nat, x: Slot, y: Slot, z: Slot, hi: nat) returns (after: seq<Slot>)
    requires multiset(list) == multiset(t) && i < |list| && k < |t| && list[i] == t[k] == x && x.free && 0 < y.size < x.size
    requires Tiles(t, 0, hi) && y == Slot(y.size, x.ptr, false) && z == Slot(x.size - y.size, x.ptr + y.size, true)
    ensures SplitAt(t, after, k, x, y.size) && Tiles(after, 0, hi)
    ensures multiset(list[i := y] + [z]) == multiset(after)
  {
    SplitTile(t, k, y.size, hi);
    SplitMultiset(list, i, t, k, y, z);
    after := t[..k] + [y, z] + t[k + 1..];
  }

  /** Allocating or freeing a slot keeps the tiling */
  lemma Relabel(t: seq<Slot>, k: nat, free: bool, hi: nat)
    requires Tiles(t, 0, hi) && k < |t|
    ensures Tiles(t[k := t[k].(free := free)], 0, hi)
  {
    TilesCut(t, k, 0, hi);
    var y := t[k].(free := free);
    assert Tiles([y], y.ptr, y.ptr + y.size) by { assert [y][1..] == []; }
    TilesJoin(t[..k], [y], t[k + 1..], 0, y.ptr, y.ptr + y.size, hi);
    assert t[k := y] == t[..k] + [y] + t[k + 1..];
  }

  /** Splitting a slot keeps the tiling */
  lemma SplitTile(t: seq<Slot>, k: nat, a: nat, hi: nat)
    requires Tiles(t, 0, hi) && k < |t| && 0 < a < t[k].size
    ensures var y, z := Slot(a, t[k].ptr, false), Slot(t[k].size - a, t[k].ptr + a, true);
      Tiles(t[..k] + [y, z] + t[k + 1..], 0, hi)
  {
    TilesCut(t, k, 0, hi);
    var y, z := Slot(a, t[k].ptr, false), Slot(t[k].size - a, t[k].ptr + a, true);
    assert Tiles([z], z.ptr, z.ptr + z.size) by { assert [z][1..] == []; }
    assert [y, z][1..] == [z];
    TilesJoin(t[..k], [y, z], t[k + 1..], 0, y.ptr, z.ptr + z.size, hi);
  }

  lemma SplitMultiset(s: seq<Slot>, i: nat, t: seq<Slot>, k: nat, y: Slot, z: Slot)
    requires multiset(s) == multiset(t) && i < |s| && k < |t| && s[i] == t[k]
    ensures multiset(s[i := y] + [z]) == multiset(t[..k] + [y, z] + t[k + 1..])
  {
    assert t == t[..k] + [t[k]] + t[k + 1..];
    assert multiset(t[..k] + [y, z] + t[k + 1..]) == multiset(t[..k]) + multiset{y} + multiset{z} + multiset(t[k + 1..]);
  }

  lemma SplitLive(t: seq<Slot>, k: nat, y: Slot, z: Slot)
    requires k < |t| && t[k].free && !y.free && z.free
    ensures Live(t[..k] + [y, z] + t[k + 1..]) == Live(t) + {y}
  {
    assert t == t[..k] + [t[k]] + t[k + 1..];
  }

  class Shm {
    const list: array<Slot>
    const mem: array<byte>
    const maxSize: nat
    var count: nat
    ghost var tiles: seq<Slot>

    /** The table holds exactly the tiles of the region, in some order */
    ghost predicate Valid()
      reads this, list
    {
      && list.Length == LIST_ITEMS && count <= LIST_ITEMS
      && multiset(list[..count]) == multiset(tiles)
      && Tiles(tiles, 0, mem.Length) && mem.Length < maxSize
    }

    /** ora_sinit, creating: one free slot */
    constructor (length: nat, maxSize: nat)
      requires 0 < length < maxSize
      ensures Valid() && fresh(list) && fresh(mem) && mem.Length == length && tiles == [Slot(length, 0, true)]
    {
      this.maxSize := maxSize;
      list := new Slot[LIST_ITEMS](i => Slot(length, 0, true));
      mem := new byte[length](i => 0);
      count := 1;
      tiles := [Slot(length, 0, true)];
      new;
      assert list[..1] == [Slot(length, 0, true)];
      assert Tiles(tiles[1..], length, length);
    }

    /** The scan of ora_salloc: the first exact fit, or else the first smallest larger slot */
    method Scan(a: nat) returns (exact: bool, select: int)
      requires Valid()
      ensures -1 <= select < count && (exact ==> select >= 0)
      ensures exact <==> HasExact(list[..count], a)
      ensures select >= 0 ==> list[select].free && if exact then list[select].size == a else list[select].size > a
      ensures !exact && select >= 0 ==>
        forall i :: 0 <= i < count && list[i].free && list[i].size > a ==> list[select].size <= list[i].size
      ensures !exact && select == -1 ==> !HasLarger(list[..count], a)
    {
      var maxMin := maxSize;
      exact, select := false, -1;
      var i := 0;
      while i < count
        invariant 0 <= i <= count && -1 <= select < i
        invariant forall j :: 0 <= j < i && list[j].free ==> list[j].size != a
        invariant if select == -1 then maxMin == maxSize && forall j :: 0 <= j < i && list[j].free ==> list[j].size <= a
                  else list[select].free && list[select].size == maxMin && maxMin > a
        invariant forall j :: 0 <= j < i && list[j].free && list[j].size > a ==> maxMin <= list[j].size
      {
        SizeBound(i);
        if list[i].free {
          if list[i].size == a {
            assert list[..count][i] == list[i];
            return true, i;
          }
          if list[i].size > a && list[i].size < maxMin {
            maxMin := list[i].size;
            select := i;
          }
        }
        i := i + 1;
      }
    }

    /** Every slot is smaller than maxSize */
    lemma SizeBound(i: nat)
      requires Valid() && i < count
      ensures list[i].size < maxSize
    {
      assert list[..count][i] == list[i];
      var k := InMultiset(list[..count], tiles, list[i]);
      TilesCut(tiles, k, 0, mem.Length);
    }

    /** defragmentation: sort by address, then merge free neighbours in place */
    method Defragment()
      requires Valid()
      modifies this`count, this`tiles, list
      ensures Valid() && tiles == Merge(old(tiles)) && list[..count] == tiles
    {
      SortTable();
      var target := MergeLoop();
      MergeTiles(tiles, 0, mem.Length);
      count := target;
      tiles := Merge(tiles);
    }

    /** The merging loop, on the sorted table */
    method MergeLoop() returns (target: nat)
      requires count <= list.Length && list[..count] == tiles
      modifies list
      ensures target <= count && list[..target] == Merge(tiles)
    {
      var src := 0;
      target := 0;
      assert tiles[..0] == [];
      while src < count
        invariant 0 <= target <= src <= count == |tiles|
        invariant list[..target] == Merge(tiles[..src])
        invariant list[src..count] == tiles[src..]
      {
        MergeNext(tiles, src);
        target := MergeStep(src, target);
        src := src + 1;
      }
      assert tiles[..count] == tiles;
    }

    /** One turn of the merging loop */
    method MergeStep(src: nat, target: nat) returns (target': nat)
      requires target <= src < count == |tiles| && count <= list.Length
      requires list[src..count] == tiles[src..]
      modifies list
      ensures target' <= src + 1 && list[..target'] == Absorb(old(list[..target]), tiles[src])
      ensures list[src + 1..count] == tiles[src + 1..]
    {
      ghost var before := list[..target];
      assert list[src] == tiles[src] by { assert list[src..count][0] == tiles[src..][0]; }
      assert list[src + 1..count] == list[src..count][1..] && tiles[src + 1..] == tiles[src..][1..];
      if target > 0 && list[src].free && list[target - 1].free {
        assert before[target - 1] == list[target - 1];
        list[target - 1] := list[target - 1].(size := list[target - 1].size + list[src].size);
        target' := target;
      } else {
        if src != target { list[target] := list[src]; }
        target' := target + 1;
      }
    }

    /** qsort: the table in address order is the tiling itself */
    method SortTable()
      requires Valid()
      modifies list
      ensures Valid() && list[..count] == tiles
    {
      var s := Sort(list[..count]);
      SortProps(list[..count]);
      assert |multiset(s)| == |multiset(list[..count])|;
      TilesSorted(tiles, 0, mem.Length);
      SortedUnique(s, tiles);
      forall i | 0 <= i < count { list[i] := s[i]; }
      assert list[..count] == s;
    }

    /** Mark slot i allocated or free */
    method Mark(i: nat, free: bool)
      requires Valid() && i < count
      modifies list, this`tiles
      ensures Valid() && list[i] == old(list[i]).(free := free)
      ensures exists k :: Marked(old(tiles), tiles, k, old(list[i]), free)
    {
      assert list[..count][i] == list[i];
      ghost var k := InMultiset(list[..count], tiles, list[i]);
      Relabel(tiles, k, free, mem.Length);
      ghost var before := list[..count];
      list[i] := list[i].(free := free);
      assert list[..count] == before[i := list[i]];
      assert Marked(tiles, tiles[k := list[i]], k, old(list[i]), free);
      tiles := tiles[k := list[i]];
    }

    /** Cut aligned bytes off slot i for the caller; the rest becomes a new slot at the end of the table */
    method Split(i: nat, a: nat)
      requires Valid() && i < count < LIST_ITEMS && list[i].free && 0 < a < list[i].size
      modifies list, this`tiles, this`count
      ensures Valid() && list[i] == Slot(a, old(list[i].ptr), false)
      ensures exists k :: SplitAt(old(tiles), tiles, k, old(list[i]), a)
    {
      ghost var before, was := list[..count], tiles;
      var x := list[i];
      var y, z := Slot(a, x.ptr, false), Slot(x.size - a, x.ptr + a, true);
      assert before[i] == x;
      ghost var k := InMultiset(before, tiles, x);
      tiles := SplitTable(before, i, tiles, k, x, y, z, mem.Length);
      PutBoth(i, y, z);
      assert SplitAt(was, tiles, k, x, a);
    }

    /** y in place of slot i, and z at the end of the table */
    method PutBoth(i: nat, y: Slot, z: Slot)
      requires i < count < LIST_ITEMS == list.Length
      modifies list, this`count
      ensures count == old(count) + 1 && list[..count] == old(list[..count])[i := y] + [z] && list[i] == y
    {
      list[count] := z;
      list[i] := y;
      count := count + 1;
    }

    /** One scan, and the allocation if it found something */
    method TryOnce(a: nat) returns (r: Result, ghost x: Slot)
      requires Valid() && a > 0
      modifies this`count, this`tiles, list
      ensures Valid() && !r.Error?
      ensures r.Block? <==> CanServe(old(tiles), a)
      ensures r.Null? ==> tiles == old(tiles)
      ensures r.Block? ==> r.ptr == x.ptr && BestFit(old(tiles), x, a) && Handed(old(tiles), tiles, x, a)
    {
      var exact, select := Scan(a);
      ScanTiles(a);
      if exact || (select != -1 && count != LIST_ITEMS) {
        assert list[..count][select] == list[select];
        x := list[select];
        Chosen(a, select);
        r := Block(list[select].ptr);
        if exact {
          Mark(select, false);
        } else {
          Split(select, a);
        }
      } else {
        r, x := Null, Slot(0, 0, false);
      }
    }

    /** What the scan selects is a best fit among the tiles */
    lemma Chosen(a: nat, i: nat)
      requires Valid() && i < count && list[i].free && a <= list[i].size
      requires list[i].size == a ||
        (!HasExact(tiles, a) &&
         forall j :: 0 <= j < count && list[j].free && list[j].size > a ==> list[i].size <= list[j].size)
      ensures BestFit(tiles, list[i], a)
    {
      ScanTiles(a);
      forall y | y in tiles && y.free && a <= y.size
        ensures list[i].size <= y.size
      {
        var j :| 0 <= j < count && list[..count][j] == y;
      }
      assert list[..count][i] == list[i];
    }

    /** ora_salloc: at most two scans, with coalescing after a scan that found nothing */
    method Salloc(size: nat) returns (r: Result, ghost a: nat, ghost x: Slot)
      requires Valid()
      modifies this`count, this`tiles, list
      ensures Valid()
      ensures r.Error? <==> size > 82688
      ensures r.Error? ==> tiles == old(tiles)
      ensures !r.Error? ==> Aligned(size, a) && (r.Block? <==> CanServe(Merge(old(tiles)), a))
      ensures r.Null? ==> tiles == Merge(old(tiles))
      ensures r.Block? ==> var t := Source(old(tiles), a);
        r.ptr == x.ptr && BestFit(t, x, a) && Handed(t, tiles, x, a)
    {
      var aligned := AlignSize(size);
      a, x := aligned, Slot(0, 0, false);
      if aligned == 0 {
        return Error, a, x;
      }
      r := Null;
      var again := 0;
      while again < 2
        invariant 0 <= again <= 2 && Valid() && r.Null?
        invariant tiles == if again == 0 then old(tiles) else Merge(old(tiles))
        invariant again > 0 ==> !CanServe(old(tiles), a)
        invariant again > 1 ==> !CanServe(Merge(old(tiles)), a)
      {
        ServedMerged(tiles, a);
        MergeIdempotent(old(tiles));
        r, x := TryOnce(aligned);
        if r.Block? {
          return;
        }
        Defragment();
        again := again + 1;
      }
    }

    /** The position of a slot that starts at ptr; the loop of ora_sfree and ora_srealloc */
    method Find(ptr: nat) returns (i: int)
      requires Valid()
      ensures -1 <= i < count
      ensures i >= 0 ==> list[i].ptr == ptr
      ensures i == -1 ==> forall x :: x in tiles ==> x.ptr != ptr
    {
      ScanTiles(0);
      i := 0;
      while i < count
        invariant 0 <= i <= count
        invariant forall j :: 0 <= j < i ==> list[j].ptr != ptr
      {
        if list[i].ptr == ptr { return; }
        i := i + 1;
      }
      i := -1;
    }

    /** ora_sfree: the block is free and overwritten; an unknown address is an error and changes nothing */
    method Sfree(ptr: nat) returns (ok: bool, ghost x: Slot)
      requires Valid()
      modifies list, mem, this`tiles
      ensures Valid() && count == old(count)
      ensures ok <==> exists y :: y in old(tiles) && y.ptr == ptr
      ensures ok ==> x.ptr == ptr && x in old(tiles) && Freed(old(tiles), tiles, x)
      ensures ok ==> Wiped(old(mem[..]), mem[..], x)
      ensures !ok ==> tiles == old(tiles) && mem[..] == old(mem[..])
    {
      var i := Find(ptr);
      x := Slot(0, 0, false);
      if i == -1 {
        return false, x;
      }
      x := list[i];
      assert list[..count][i] == list[i];
      ghost var k := InMultiset(list[..count], tiles, x);
      TilesCut(tiles, k, 0, mem.Length);
      Mark(i, true);
      var size := list[i].size;
      forall j | ptr <= j < ptr + size { mem[j] := 35; }
      return true, x;
    }

    /**
     ora_srealloc: an unknown address is an error. Of a live block b: the block
     itself if it is large enough, or a new block with the same leading bytes, b
     being freed.
     */
    method Srealloc(ptr: nat, size: nat) returns (r: Result, ghost a: nat, ghost b: Slot)
      requires Valid() && forall x :: x in tiles && x.ptr == ptr ==> !x.free
      modifies this`count, this`tiles, list, mem
      ensures Valid()
      ensures r.Error? <==> size > 82688 || forall x :: x in old(tiles) ==> x.ptr != ptr
      ensures r.Error? ==> tiles == old(tiles) && mem[..] == old(mem[..])
      ensures !r.Error? ==> b in Live(old(tiles)) && b.ptr == ptr && Aligned(size, a)
      ensures r.Block? && a <= b.size ==> r.ptr == ptr && tiles == old(tiles) && mem[..] == old(mem[..])
      ensures r.Null? ==> tiles == Merge(old(tiles)) && mem[..] == old(mem[..]) && !CanServe(tiles, a) && a > b.size
      ensures r.Block? && a > b.size ==>
        var y := Slot(a, r.ptr, false);
        Live(tiles) == Live(old(tiles)) - {b} + {y} && Apart(y, Live(old(tiles))) && Moved(old(mem[..]), mem[..], b, r.ptr)
    {
      a, b := 0, Slot(0, 0, false);
      var i := Find(ptr);
      if i == -1 {
        return Error, a, b;
      }
      assert list[..count][i] == list[i];
      ghost var k := InMultiset(list[..count], tiles, list[i]);
      b := list[i];
      var have := list[i].size;
      var aligned := AlignSize(size);
      a := aligned;
      if aligned == 0 {
        return Error, a, b;
      }
      if aligned <= have {
        return Block(ptr), a, b;
      }
      AlignedUnique(size, a);
      r, a := MoveBlock(ptr, have, size, b);
    }

    /** The part of ora_srealloc that allocates, copies and frees */
    method MoveBlock(ptr: nat, have: nat, size: nat, ghost b: Slot) returns (r: Result, ghost a: nat)
      requires Valid() && b in Live(tiles) && b == Slot(have, ptr, false) && size <= 82688
      requires forall c :: Aligned(size, c) ==> have < c
      modifies this`count, this`tiles, list, mem
      ensures Valid() && !r.Error? && Aligned(size, a)
      ensures r.Null? ==> tiles == Merge(old(tiles)) && mem[..] == old(mem[..]) && !CanServe(tiles, a)
      ensures r.Block? ==>
        var y := Slot(a, r.ptr, false);
        Live(tiles) == Live(old(tiles)) - {b} + {y} && Apart(y, Live(old(tiles))) && Moved(old(mem[..]), mem[..], b, r.ptr)
    {
      r, a := Extend(size);
      if r.Null? {
        return;
      }
      ghost var was, y := Live(old(tiles)), Slot(a, r.ptr, false);
      assert !Overlap(y, b);
      CopyAndFree(ptr, have, r.ptr, b, y);
      Exchanged(was, b, y);
    }

    /** ora_salloc in terms of the blocks */
    method Extend(size: nat) returns (r: Result, ghost a: nat)
      requires Valid() && size <= 82688
      modifies this`count, this`tiles, list
      ensures Valid() && !r.Error? && Aligned(size, a)
      ensures r.Null? ==> tiles == Merge(old(tiles)) && !CanServe(tiles, a)
      ensures r.Block? ==>
        var y := Slot(a, r.ptr, false); Live(tiles) == Live(old(tiles)) + {y} && Apart(y, Live(old(tiles)))
    {
      ghost var x;
      r, a, x := Salloc(size);
      if r.Block? {
        AllocEffect(old(tiles), tiles, x, a, mem.Length);
      }
    }

    /** The bytes of b move to block y, and b is freed */
    method CopyAndFree(ptr: nat, have: nat, p: nat, ghost b: Slot, ghost y: Slot)
      requires Valid() && b == Slot(have, ptr, false) && y.ptr == p && have <= y.size
      requires b in Live(tiles) && y in Live(tiles) && !Overlap(y, b)
      modifies this`tiles, list, mem
      ensures Valid() && Live(tiles) == Live(old(tiles)) - {b} && Moved(old(mem[..]), mem[..], b, p)
    {
      InRegion(tiles, b, mem.Length);
      InRegion(tiles, y, mem.Length);
      CopyBytes(ptr, p, have);
      ghost var copied := mem[..];
      var ok, z := Sfree(ptr);
      FreeEffect(old(tiles), tiles, z, b, mem.Length);
      CopiedAndWiped(old(mem[..]), copied, mem[..], b, p);
    }

    /** memcpy */
    method CopyBytes(from: nat, to: nat, n: nat)
      requires from + n <= mem.Length && to + n <= mem.Length && (from + n <= to || to + n <= from)
      modifies mem
      ensures mem[to..to + n] == old(mem[from..from + n])
      ensures forall i :: 0 <= i < mem.Length && !(to <= i < to + n) ==> mem[i] == old(mem[i])
    {
      forall i | to <= i < to + n { mem[i] := mem[from + (i - to)]; }
    }

    /** The table and the tiling offer the same slots */
    lemma ScanTiles(a: nat)
      requires Valid()
      ensures HasExact(list[..count], a) <==> HasExact(tiles, a)
      ensures HasLarger(list[..count], a) <==> HasLarger(tiles, a)
      ensures count == |tiles|
      ensures forall x :: x in tiles <==> x in list[..count]
    {
      assert forall x :: x in list[..count] <==> x in multiset(list[..count]);
      assert forall x :: x in tiles <==> x in multiset(tiles);
      assert |multiset(list[..count])| == |multiset(tiles)|;
    }
  }

  /** a is size rounded up by the table */
  ghost predicate Aligned(size: nat, a: nat) {
    a in ASIZE && size <= a && forall x :: x in ASIZE && size <= x ==> a <= x
  }

  /** The slots a request for a bytes is served from: the table, or the coalesced table if that cannot serve it */
  ghost function Source(t: seq<Slot>, a: nat): seq<Slot> {
    if CanServe(t, a) then t else Merge(t)
  }

  /** x is a smallest free slot of t with at least a bytes */
  ghost predicate BestFit(t: seq<Slot>, x: Slot, a: nat) {
    x in t && x.free && a <= x.size && forall y :: y in t && y.free && a <= y.size ==> x.size <= y.size
  }

  lemma ServedMerged(t: seq<Slot>, a: nat)
    requires |t| <= LIST_ITEMS
    ensures CanServe(t, a) ==> CanServe(Merge(t), a)
  {
    if CanServe(t, a) { MergeServes(t, a); }
  }

  /** after is t with a bytes at the start of x allocated and the rest of x still free */
  ghost predicate Handed(t: seq<Slot>, after: seq<Slot>, x: Slot, a: nat) {
    if x.size == a then exists k :: Marked(t, after, k, x, false) else exists k :: SplitAt(t, after, k, x, a)
  }

  lemma MergeNext(t: seq<Slot>, k: nat)
    requires k < |t|
    ensures Merge(t[..k + 1]) == Absorb(Merge(t[..k]), t[k])
  {
    assert t[..k + 1][..k] == t[..k];
  }

  lemma {:induction false} MergedStays(s: seq<Slot>)
    requires NoFreeNeighbours(s)
    ensures Merge(s) == s
  {
    if s != [] {
      var k := |s| - 1;
      MergedStays(s[..k]);
      assert s == s[..k] + [s[k]];
    }
  }

  lemma MergeIdempotent(s: seq<Slot>)
    ensures Merge(Merge(s)) == Merge(s)
  {
    MergeNoFreeNeighbours(s);
    MergedStays(Merge(s));
  }

  /** after is t with x free */
  ghost predicate Freed(t: seq<Slot>, after: seq<Slot>, x: Slot) {
    exists k :: Marked(t, after, k, x, true)
  }

  /** The bytes of x are '#', all others are kept */
  ghost predicate Wiped(m: seq<byte>, m': seq<byte>, x: Slot) {
    && |m'| == |m|
    && forall i :: 0 <= i < |m| ==> m'[i] == if x.ptr <= i < x.ptr + x.size then 35 else m[i]
  }

  /** y overlaps none of the blocks */
  ghost predicate Apart(y: Slot, blocks: set<Slot>) {
    forall z :: z in blocks ==> !Overlap(y, z)
  }

  /** The bytes of b are copied to p and then wiped; all others are kept */
  ghost predicate Moved(m: seq<byte>, m': seq<byte>, b: Slot, p: nat) {
    && |m'| == |m| && b.ptr + b.size <= |m| && p + b.size <= |m|
    && m'[p..p + b.size] == m[b.ptr..b.ptr + b.size]
    && (forall i :: 0 <= i < |m| && !(p <= i < p + b.size) ==> m'[i] == if b.ptr <= i < b.ptr + b.size then 35 else m[i])
  }

  lemma CopiedAndWiped(m: seq<byte>, copied: seq<byte>, m': seq<byte>, b: Slot, p: nat)
    requires b.ptr + b.size <= |m| == |copied| && p + b.size <= |m| && (b.ptr + b.size <= p || p + b.size <= b.ptr)
    requires copied[p..p + b.size] == m[b.ptr..b.ptr + b.size]
    requires forall i :: 0 <= i < |m| && !(p <= i < p + b.size) ==> copied[i] == m[i]
    requires Wiped(copied, m', b)
    ensures Moved(m, m', b, p)
  {
    assert m'[p..p + b.size] == copied[p..p + b.size];
  }

  lemma Exchanged(live: set<Slot>, b: Slot, y: Slot)
    requires b in live && y.size != b.size
    ensures (live + {y}) - {b} == live - {b} + {y}
  {
  }

  lemma AlignedUnique(size: nat, a: nat)
    requires Aligned(size, a)
    ensures forall c :: Aligned(size, c) ==> c == a
  {}

  lemma InRegion(t: seq<Slot>, x: Slot, hi: nat)
    requires Tiles(t, 0, hi) && x in t
    ensures x.ptr + x.size <= hi && x.size > 0
  {
    var i :| 0 <= i < |t| && t[i] == x;
    TilesCut(t, i, 0, hi);
  }

  /** What handing out a bytes of x does to the blocks and the free bytes */
  lemma HandedEffect(t: seq<Slot>, after: seq<Slot>, x: Slot, a: nat, hi: nat)
    requires Tiles(t, 0, hi) && x in t && x.free && a <= x.size && Handed(t, after, x, a)
    ensures Live(after) == Live(t) + {Slot(a, x.ptr, false)}
    ensures FreeBytes(after) == FreeBytes(t) - a
  {
    if x.size == a {
      TilesSorted(t, 0, hi);
      var k :| Marked(t, after, k, x, false);
      WholeEffect(t, after, k, x);
    } else {
      var k :| SplitAt(t, after, k, x, a);
      SplitEffect(t, after, k, x, a);
    }
  }

  lemma WholeEffect(t: seq<Slot>, after: seq<Slot>, k: nat, x: Slot)
    requires Marked(t, after, k, x, false) && x.free && StrictlySorted(t)
    ensures Live(after) == Live(t) + {Slot(x.size, x.ptr, false)} && FreeBytes(after) == FreeBytes(t) - x.size
  {
    MarkedEffect(t, k, false);
  }

  lemma SplitEffect(t: seq<Slot>, after: seq<Slot>, k: nat, x: Slot, a: nat)
    requires SplitAt(t, after, k, x, a) && x.free
    ensures Live(after) == Live(t) + {Slot(a, x.ptr, false)} && FreeBytes(after) == FreeBytes(t) - a
  {
    SplitLive(t, k, Slot(a, x.ptr, false), Slot(x.size - a, x.ptr + a, true));
    SplitFreeBytes(t, k, a);
  }

  /** A block cut from the start of a free slot overlaps no allocated one */
  lemma HandedApart(t: seq<Slot>, x: Slot, a: nat, hi: nat)
    requires Tiles(t, 0, hi) && x in t && x.free && a <= x.size
    ensures Apart(Slot(a, x.ptr, false), Live(t)) && x.ptr + a <= hi
  {
    InRegion(t, x, hi);
    forall z | z in Live(t)
      ensures !Overlap(Slot(a, x.ptr, false), z)
    {
      TilesDisjoint(t, x, z, 0, hi);
    }
  }

  /** A successful ora_salloc adds one block apart from all others and takes its bytes from the free ones */
  lemma AllocEffect(before: seq<Slot>, after: seq<Slot>, x: Slot, a: nat, hi: nat)
    requires Tiles(before, 0, hi) && BestFit(Source(before, a), x, a) && Handed(Source(before, a), after, x, a)
    ensures Live(after) == Live(before) + {Slot(a, x.ptr, false)}
    ensures Apart(Slot(a, x.ptr, false), Live(before)) && x.ptr + a <= hi
    ensures FreeBytes(after) == FreeBytes(before) - a
  {
    MergeTiles(before, 0, hi);
    MergeLive(before);
    MergeFreeBytes(before);
    HandedEffect(Source(before, a), after, x, a, hi);
    HandedApart(Source(before, a), x, a, hi);
  }

  /** ora_sfree of an allocated block takes that block away and no other */
  lemma FreeEffect(before: seq<Slot>, after: seq<Slot>, x: Slot, b: Slot, hi: nat)
    requires Tiles(before, 0, hi) && x in before && b in Live(before) && x.ptr == b.ptr && Freed(before, after, x)
    ensures x == b && Live(after) == Live(before) - {b}
    ensures FreeBytes(after) == FreeBytes(before) + b.size
  {
    if x != b { TilesDisjoint(before, x, b, 0, hi); }
    TilesSorted(before, 0, hi);
    var k :| Marked(before, after, k, x, true);
    MarkedEffect(before, k, true);
  }

  lemma MarkedEffect(t: seq<Slot>, k: nat, free: bool)
    requires k < |t|
    ensures var after := t[k := t[k].(free := free)];
      && FreeBytes(after) == FreeBytes(t) - (if t[k].free then t[k].size else 0) + (if free then t[k].size else 0)
      && (StrictlySorted(t) && t[k].free != free ==>
            Live(after) == if free then Live(t) - {t[k]} else Live(t) + {t[k].(free := false)})
  {
    var y := t[k].(free := free);
    MarkedBytes(t, k, y);
    if StrictlySorted(t) && t[k].free != free {
      MarkedLive(t, k, y);
    }
  }

  lemma MarkedBytes(t: seq<Slot>, k: nat, y: Slot)
    requires k < |t| && y.size == t[k].size
    ensures FreeBytes(t[k := y]) == FreeBytes(t) - (if t[k].free then t[k].size else 0) + (if y.free then t[k].size else 0)
  {
    assert t == t[..k] + [t[k]] + t[k + 1..] && t[k := y] == t[..k] + [y] + t[k + 1..];
    FreeBytesParts(t[..k], t[k], t[k + 1..]);
    FreeBytesParts(t[..k], y, t[k + 1..]);
  }

  lemma MarkedLive(t: seq<Slot>, k: nat, y: Slot)
    requires StrictlySorted(t) && k < |t| && y == t[k].(free := !t[k].free)
    ensures Live(t[k := y]) == if y.free then Live(t) - {t[k]} else Live(t) + {y}
  {
    var after := t[k := y];
    assert forall j :: 0 <= j < |t| && j != k ==> after[j] == t[j] && t[j] != t[k];
    assert after[k] == y;
    forall x | x in Live(t) && x != t[k]
      ensures x in Live(after)
    {
      var j :| 0 <= j < |t| && t[j] == x;
      assert after[j] == x;
    }
  }

  lemma {:induction false} FreeBytesConcat(s: seq<Slot>, t: seq<Slot>)
    ensures FreeBytes(s + t) == FreeBytes(s) + FreeBytes(t)
  {
    if t == [] {
      assert s + t == s;
    } else {
      var k := |t| - 1;
      FreeBytesConcat(s, t[..k]);
      assert (s + t)[..|s + t| - 1] == s + t[..k];
    }
  }

  lemma FreeBytesParts(l: seq<Slot>, x: Slot, r: seq<Slot>)
    ensures FreeBytes(l + [x] + r) == FreeBytes(l) + (if x.free then x.size else 0) + FreeBytes(r)
  {
    FreeBytesConcat(l + [x], r);
    FreeBytesConcat(l, [x]);
    assert [x][..0] == [];
  }

  lemma SplitFreeBytes(t: seq<Slot>, k: nat, a: nat)
    requires k < |t| && t[k].free && a < t[k].size
    ensures FreeBytes(t[..k] + [Slot(a, t[k].ptr, false), Slot(t[k].size - a, t[k].ptr + a, true)] + t[k + 1..])
         == FreeBytes(t) - a
  {
    assert t == t[..k] + [t[k]] + t[k + 1..];
    FreeBytesParts(t[..k], t[k], t[k + 1..]);
    FreeBytesPair(t[..k], Slot(a, t[k].ptr, false), Slot(t[k].size - a, t[k].ptr + a, true), t[k + 1..]);
  }

  lemma FreeBytesPair(l: seq<Slot>, y: Slot, z: Slot, r: seq<Slot>)
    requires !y.free && z.free
    ensures FreeBytes(l + [y, z] + r) == FreeBytes(l) + z.size + FreeBytes(r)
  {
    assert l + [y, z] + r == (l + [y]) + [z] + r;
    FreeBytesParts(l + [y], z, r);
    assert l + [y] == l + [y] + [];
    FreeBytesParts(l, y, []);
  }

  /** t' is t with slot k, which is x, marked */
  ghost predicate Marked(t: seq<Slot>, t': seq<Slot>, k: nat, x: Slot, free: bool) {
    k < |t| && t[k] == x && t' == t[k := x.(free := free)]
  }

  /** t' is t with slot k, which is x, cut at a */
  ghost predicate SplitAt(t: seq<Slot>, t': seq<Slot>, k: nat, x: Slot, a: nat) {
    && k < |t| && t[k] == x && a < x.size
    && t' == t[..k] + [Slot(a, x.ptr, false), Slot(x.size - a, x.ptr + a, true)] + t[k + 1..]
  }
}
