/**
 Whole runs of the allocator under its lock: calls of ora_salloc, ora_sfree and
 ora_srealloc, and writes of owners into their own blocks, in any order.
 */
module AllocatorRuns {
  import opened Common
  import opened Slots
  import opened Allocator

  /** The tiling of the region and its bytes */
  datatype Shared = Shared(tiles: seq<Slot>, mem: seq<byte>)

  /** A call with what it returned, or a write; a block is named by its slot */
  datatype Action =
    | CallAlloc(size: nat, r: Result)
    | CallFree(b: Slot)
    | CallRealloc(b: Slot, size: nat, r: Result)
    | OwnerWrites(b: Slot)

  predicate Uses(act: Action, c: Slot) {
    !act.CallAlloc? && act.b == c
  }

  ghost predicate Tiled(s: Shared) {
    Tiles(s.tiles, 0, |s.mem|)
  }

  /** A request too large for the table of sizes */
  predicate TooLarge(size: nat) {
    size > 82688
  }

  /** Even the coalesced table cannot serve the request */
  ghost predicate Unservable(t: seq<Slot>, size: nat) {
    exists a: nat :: Aligned(size, a) && !CanServe(Merge(t), a)
  }

  /** The rounded request is cut from the start of a best fit at p */
  ghost predicate Served(t: seq<Slot>, t': seq<Slot>, size: nat, p: nat) {
    exists a: nat, x: Slot {:trigger Handed(Source(t, a), t', x, a)} ::
      Aligned(size, a) && x.ptr == p && BestFit(Source(t, a), x, a) && Handed(Source(t, a), t', x, a)
  }

  /** The outcomes of `Shm.Salloc` */
  ghost predicate AllocStep(s: Shared, size: nat, r: Result, s': Shared) {
    && s'.mem == s.mem
    && match r
       case Error => TooLarge(size) && s'.tiles == s.tiles
       case Null => Unservable(s.tiles, size) && s'.tiles == Merge(s.tiles)
       case Block(p) => Served(s.tiles, s'.tiles, size, p)
  }

  /** The rounded request fits a block of that many bytes */
  ghost predicate Fits(size: nat, have: nat) {
    exists a: nat :: Aligned(size, a) && a <= have
  }

  /** The outcomes of `Shm.Srealloc` on a live block */
  ghost predicate ReallocStep(s: Shared, b: Slot, size: nat, r: Result, s': Shared) {
    match r
    case Error => TooLarge(size) && s' == s
    case Null => Unservable(s.tiles, size) && !Fits(size, b.size) && s'.tiles == Merge(s.tiles) && s'.mem == s.mem
    case Block(p) =>
      if Fits(size, b.size) then p == b.ptr && s' == s
      else exists y: Slot :: MovedTo(s, s', b, y) && y.ptr == p && Aligned(size, y.size)
  }

  ghost predicate MovedTo(s: Shared, s': Shared, b: Slot, y: Slot) {
    && Tiled(s') && !y.free && b.size < y.size
    && Live(s'.tiles) == Live(s.tiles) - {b} + {y} && Apart(y, Live(s.tiles))
    && Moved(s.mem, s'.mem, b, y.ptr)
  }

  ghost predicate Next(s: Shared, act: Action, s': Shared) {
    match act
    case CallAlloc(size, r) => AllocStep(s, size, r, s')
    case CallFree(b) => b in Live(s.tiles) && Freed(s.tiles, s'.tiles, b) && Wiped(s.mem, s'.mem, b)
    case CallRealloc(b, size, r) => b in Live(s.tiles) && ReallocStep(s, b, size, r, s')
    case OwnerWrites(b) =>
      && b in Live(s.tiles) && s'.tiles == s.tiles && |s'.mem| == |s.mem|
      && forall i :: 0 <= i < |s.mem| && !(b.ptr <= i < b.ptr + b.size) ==> s'.mem[i] == s.mem[i]
  }

  /** Block c is allocated in s and holds the given bytes */
  ghost predicate Holds(s: Shared, c: Slot, bytes: seq<byte>) {
    c in Live(s.tiles) && c.ptr + c.size <= |s.mem| && s.mem[c.ptr..c.ptr + c.size] == bytes
  }

  /** A served request adds one block of the rounded size at the address returned, apart from all others */
  lemma ServedBlock(t: seq<Slot>, t': seq<Slot>, size: nat, p: nat, hi: nat) returns (y: Slot)
    requires Tiles(t, 0, hi) && Served(t, t', size, p)
    ensures Tiles(t', 0, hi) && !y.free && y.ptr == p && Aligned(size, y.size)
    ensures Live(t') == Live(t) + {y} && Apart(y, Live(t)) && y !in Live(t)
  {
    var a: nat, x: Slot :| Aligned(size, a) && x.ptr == p && BestFit(Source(t, a), x, a) && Handed(Source(t, a), t', x, a);
    y := Slot(a, p, false);
    HandedBlock(t, t', x, a, hi);
  }

  lemma HandedBlock(t: seq<Slot>, t': seq<Slot>, x: Slot, a: nat, hi: nat)
    requires Tiles(t, 0, hi) && 0 < a && BestFit(Source(t, a), x, a) && Handed(Source(t, a), t', x, a)
    ensures var y := Slot(a, x.ptr, false);
      Tiles(t', 0, hi) && Live(t') == Live(t) + {y} && Apart(y, Live(t)) && y !in Live(t)
  {
    MergeTiles(t, 0, hi);
    HandedTiles(Source(t, a), t', x, a, hi);
    AllocEffect(t, t', x, a, hi);
    var y := Slot(a, x.ptr, false);
    assert Overlap(y, y);
  }

  lemma AllocKeeps(s: Shared, size: nat, r: Result, s': Shared)
    requires Tiled(s) && AllocStep(s, size, r, s')
    ensures Tiled(s') && Live(s.tiles) <= Live(s'.tiles)
  {
    MergeTiles(s.tiles, 0, |s.mem|);
    MergeLive(s.tiles);
    if r.Block? {
      var y := ServedBlock(s.tiles, s'.tiles, size, r.ptr, |s.mem|);
    }
  }

  lemma HandedTiles(t: seq<Slot>, after: seq<Slot>, x: Slot, a: nat, hi: nat)
    requires Tiles(t, 0, hi) && Handed(t, after, x, a) && 0 < a
    ensures Tiles(after, 0, hi)
  {
    if x.size == a {
      var k :| Marked(t, after, k, x, false);
      Relabel(t, k, false, hi);
    } else {
      var k :| SplitAt(t, after, k, x, a);
      SplitTile(t, k, a, hi);
    }
  }

  lemma FreeKeeps(s: Shared, s': Shared, b: Slot)
    requires Tiled(s) && b in Live(s.tiles) && Freed(s.tiles, s'.tiles, b) && Wiped(s.mem, s'.mem, b)
    ensures Tiled(s') && Live(s'.tiles) == Live(s.tiles) - {b}
  {
    var k :| Marked(s.tiles, s'.tiles, k, b, true);
    Relabel(s.tiles, k, true, |s.mem|);
    FreeEffect(s.tiles, s'.tiles, b, b, |s.mem|);
  }

  /** Every step keeps the tiling */
  lemma StepTiled(s: Shared, act: Action, s': Shared)
    requires Tiled(s) && Next(s, act, s')
    ensures Tiled(s')
  {
    match act {
      case CallAlloc(size, r) => AllocKeeps(s, size, r, s');
      case CallFree(b) => FreeKeeps(s, s', b);
      case CallRealloc(b, _, _) => MergeTiles(s.tiles, 0, |s.mem|);
      case OwnerWrites(_) =>
    }
  }

  /** Bytes outside the range that a step writes stay as they are */
  lemma BytesStay(m: seq<byte>, m': seq<byte>, c: Slot)
    requires |m'| == |m| && c.ptr + c.size <= |m|
    requires forall i :: c.ptr <= i < c.ptr + c.size ==> m'[i] == m[i]
    ensures m'[c.ptr..c.ptr + c.size] == m[c.ptr..c.ptr + c.size]
  {}

  /** A step keeps every block it is not called on: allocated, in place, with its bytes */
  lemma StepKeeps(s: Shared, act: Action, s': Shared, c: Slot, bytes: seq<byte>)
    requires Tiled(s) && Next(s, act, s') && Holds(s, c, bytes) && !Uses(act, c)
    ensures Holds(s', c, bytes)
  {
    match act {
      case CallAlloc(size, r) => AllocKeeps(s, size, r, s');
      case CallFree(b) =>
        FreeKeeps(s, s', b);
        TilesDisjoint(s.tiles, b, c, 0, |s.mem|);
        BytesStay(s.mem, s'.mem, c);
      case CallRealloc(b, _, _) =>
        MergeLive(s.tiles);
        TilesDisjoint(s.tiles, b, c, 0, |s.mem|);
        if exists y: Slot :: MovedTo(s, s', b, y) {
          var y: Slot :| MovedTo(s, s', b, y);
          assert !Overlap(y, c);
          BytesStay(s.mem, s'.mem, c);
        }
      case OwnerWrites(b) =>
        TilesDisjoint(s.tiles, b, c, 0, |s.mem|);
        BytesStay(s.mem, s'.mem, c);
    }
  }

  /** A run: one more state than actions, each step a call or a write */
  ghost predicate Run(states: seq<Shared>, acts: seq<Action>) {
    |states| == |acts| + 1 && forall i :: 0 <= i < |acts| ==> Next(states[i], acts[i], states[i + 1])
  }

  /** The slots tile the region in every state of every run */
  lemma {:induction false} RunTiled(states: seq<Shared>, acts: seq<Action>, i: nat)
    requires Run(states, acts) && Tiled(states[0]) && i < |states|
    ensures Tiled(states[i])
  {
    if i > 0 {
      RunTiled(states, acts, i - 1);
      StepTiled(states[i - 1], acts[i - 1], states[i]);
    }
  }

  /** A block stays where it is, with its bytes, through every run that neither frees, resizes nor writes it */
  lemma {:induction false} RunKeeps(states: seq<Shared>, acts: seq<Action>, i: nat, c: Slot, bytes: seq<byte>)
    requires Run(states, acts) && Tiled(states[0]) && i < |states| && Holds(states[0], c, bytes)
    requires forall j :: 0 <= j < i ==> !Uses(acts[j], c)
    ensures Holds(states[i], c, bytes)
  {
    if i > 0 {
      RunKeeps(states, acts, i - 1, c, bytes);
      RunTiled(states, acts, i - 1);
      StepKeeps(states[i - 1], acts[i - 1], states[i], c, bytes);
    }
  }

  /** In every state of every run the allocated blocks are disjoint and inside the region */
  lemma RunDisjoint(states: seq<Shared>, acts: seq<Action>, i: nat, b: Slot, c: Slot)
    requires Run(states, acts) && Tiled(states[0]) && i < |states|
    requires b in Live(states[i].tiles) && c in Live(states[i].tiles) && b != c
    ensures !Overlap(b, c) && 0 < b.size && b.ptr + b.size <= |states[i].mem|
  {
    RunTiled(states, acts, i);
    TilesDisjoint(states[i].tiles, b, c, 0, |states[i].mem|);
    InRegion(states[i].tiles, b, |states[i].mem|);
  }

  // ---------------------------------------------------------------- large enough

  /** The bytes last asked for, by the address of the block */
  type Ledger = map<nat, nat>

  function Noted(m: Ledger, act: Action): Ledger {
    match act
    case CallAlloc(size, r) => if r.Block? then m[r.ptr := size] else m
    case CallFree(b) => m - {b.ptr}
    case CallRealloc(b, size, r) => if r.Block? then (m - {b.ptr})[r.ptr := size] else m
    case OwnerWrites(_) => m
  }

  function Asked(m: Ledger, acts: seq<Action>): Ledger {
    if acts == [] then m else Noted(Asked(m, acts[..|acts| - 1]), acts[|acts| - 1])
  }

  ghost predicate Covers(m: Ledger, b: Slot) {
    b.ptr in m && m[b.ptr] <= b.size
  }

  /** The live blocks are those noted, each with at least the bytes last asked for it */
  ghost predicate LargeEnough(live: set<Slot>, m: Ledger) {
    (forall b :: b in live ==> Covers(m, b)) && m.Keys == set b | b in live :: b.ptr
  }

  /** One block more, at an address of its own */
  lemma OneMore(live: set<Slot>, m: Ledger, y: Slot, size: nat)
    requires LargeEnough(live, m) && size <= y.size && forall b :: b in live ==> b.ptr != y.ptr
    ensures LargeEnough(live + {y}, m[y.ptr := size])
  {
    forall b | b in live + {y}
      ensures Covers(m[y.ptr := size], b)
    {
      assert b in live ==> Covers(m, b);
    }
    assert (set b | b in live + {y} :: b.ptr) == (set b | b in live :: b.ptr) + {y.ptr};
  }

  /** One block less */
  lemma OneLess(live: set<Slot>, m: Ledger, y: Slot)
    requires LargeEnough(live, m) && y in live && forall b :: b in live && b != y ==> b.ptr != y.ptr
    ensures LargeEnough(live - {y}, m - {y.ptr})
  {
    forall b | b in live - {y}
      ensures Covers(m - {y.ptr}, b)
    {
      assert Covers(m, b);
    }
    assert (set b | b in live - {y} :: b.ptr) == (set b | b in live :: b.ptr) - {y.ptr};
  }

  lemma OwnAddress(t: seq<Slot>, y: Slot, hi: nat)
    requires Tiles(t, 0, hi) && y in t
    ensures forall b :: b in t && b != y ==> b.ptr != y.ptr
  {
    forall b | b in t && b != y
      ensures b.ptr != y.ptr
    {
      TilesDisjoint(t, b, y, 0, hi);
    }
  }

  lemma ApartAddress(t: seq<Slot>, y: Slot, hi: nat)
    requires Tiles(t, 0, hi) && Apart(y, Live(t)) && y.size > 0
    ensures forall b :: b in Live(t) ==> b.ptr != y.ptr
  {
    forall b | b in Live(t)
      ensures b.ptr != y.ptr
    {
      InRegion(t, b, hi);
      assert !Overlap(y, b);
    }
  }

  lemma AllocLarge(s: Shared, size: nat, r: Result, s': Shared, m: Ledger)
    requires Tiled(s) && AllocStep(s, size, r, s') && LargeEnough(Live(s.tiles), m)
    ensures LargeEnough(Live(s'.tiles), Noted(m, CallAlloc(size, r)))
  {
    MergeLive(s.tiles);
    if r.Block? {
      var y := ServedBlock(s.tiles, s'.tiles, size, r.ptr, |s.mem|);
      ApartAddress(s.tiles, y, |s.mem|);
      OneMore(Live(s.tiles), m, y, size);
    }
  }

  lemma ReallocLarge(s: Shared, b: Slot, size: nat, r: Result, s': Shared, m: Ledger)
    requires Tiled(s) && b in Live(s.tiles) && ReallocStep(s, b, size, r, s') && LargeEnough(Live(s.tiles), m)
    ensures LargeEnough(Live(s'.tiles), Noted(m, CallRealloc(b, size, r)))
  {
    MergeLive(s.tiles);
    if r.Block? {
      OwnAddress(s.tiles, b, |s.mem|);
      OneLess(Live(s.tiles), m, b);
      var y := b;
      if !Fits(size, b.size) {
        y :| MovedTo(s, s', b, y) && y.ptr == r.ptr && Aligned(size, y.size);
        ApartAddress(s.tiles, y, |s.mem|);
      } else {
        assert Live(s.tiles) - {b} + {b} == Live(s.tiles);
      }
      OneMore(Live(s.tiles) - {b}, m - {b.ptr}, y, size);
    }
  }

  lemma StepLarge(s: Shared, act: Action, s': Shared, m: Ledger)
    requires Tiled(s) && Next(s, act, s') && LargeEnough(Live(s.tiles), m)
    ensures LargeEnough(Live(s'.tiles), Noted(m, act))
  {
    match act {
      case CallAlloc(size, r) => AllocLarge(s, size, r, s', m);
      case CallFree(b) =>
        FreeKeeps(s, s', b);
        OwnAddress(s.tiles, b, |s.mem|);
        OneLess(Live(s.tiles), m, b);
      case CallRealloc(b, size, r) => ReallocLarge(s, b, size, r, s', m);
      case OwnerWrites(_) =>
    }
  }

  /** In every state of every run the live blocks are those returned and not freed, each at least as large as last asked */
  lemma {:induction false} RunLarge(states: seq<Shared>, acts: seq<Action>, i: nat, m: Ledger)
    requires Run(states, acts) && Tiled(states[0]) && i < |states| && LargeEnough(Live(states[0].tiles), m)
    ensures LargeEnough(Live(states[i].tiles), Asked(m, acts[..i]))
  {
    if i > 0 {
      RunLarge(states, acts, i - 1, m);
      RunTiled(states, acts, i - 1);
      StepLarge(states[i - 1], acts[i - 1], states[i], Asked(m, acts[..i - 1]));
      assert acts[..i][..i - 1] == acts[..i - 1];
    }
  }

  // ---------------------------------------------------------------- the calls

  /** The state of an allocator in these terms */
  ghost function View(shm: Shm): Shared
    reads shm, shm.mem
  {
    Shared(shm.tiles, shm.mem[..])
  }

  /** ora_salloc is such a step, and a block it returns is new, live and large enough */
  method DoAlloc(shm: Shm, size: nat) returns (r: Result, ghost b: Slot)
    requires shm.Valid()
    modifies shm, shm.list
    ensures shm.Valid() && Next(old(View(shm)), CallAlloc(size, r), View(shm))
    ensures r.Block? ==> b.ptr == r.ptr && size <= b.size && b !in Live(old(shm.tiles)) && Live(shm.tiles) == Live(old(shm.tiles)) + {b}
  {
    ghost var a, x;
    r, a, x := shm.Salloc(size);
    b := x;
    if r.Block? {
      assert Handed(Source(old(shm.tiles), a), shm.tiles, x, a);
      b := ServedBlock(old(shm.tiles), shm.tiles, size, r.ptr, shm.mem.Length);
    }
  }

  method DoFree(shm: Shm, b: Slot)
    requires shm.Valid() && b in Live(shm.tiles)
    modifies shm, shm.list, shm.mem
    ensures shm.Valid() && Next(old(View(shm)), CallFree(b), View(shm))
  {
    ghost var x;
    var ok;
    assert b in shm.tiles;
    ok, x := shm.Sfree(b.ptr);
    assert x == b by {
      if x != b { TilesDisjoint(old(shm.tiles), x, b, 0, old(|shm.mem[..]|)); }
    }
  }

  /** ora_srealloc of a live block is such a step, and what it returns is live and large enough */
  method DoRealloc(shm: Shm, b: Slot, size: nat) returns (r: Result, ghost y: Slot)
    requires shm.Valid() && b in Live(shm.tiles)
    modifies shm, shm.list, shm.mem
    ensures shm.Valid() && Next(old(View(shm)), CallRealloc(b, size, r), View(shm))
    ensures r.Block? ==> y.ptr == r.ptr && size <= y.size && Live(shm.tiles) == Live(old(shm.tiles)) - {b} + {y}
  {
    ghost var a;
    ghost var s := View(shm);
    OwnAddress(shm.tiles, b, shm.mem.Length);
    r, a, y := shm.Srealloc(b.ptr, size);
    assert !r.Error? ==> y == b;
    if r.Block? && a > b.size {
      AlignedUnique(size, a);
      y := Slot(a, r.ptr, false);
      assert MovedTo(s, View(shm), b, y);
    }
  }
}
