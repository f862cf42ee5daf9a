/**
 The packed message format: a 16-byte buffer header, then for each item a 16-byte
 header (size, type and tuple type, four bytes each, and padding) and its bytes,
 padded with zeros to a multiple of eight.
 */
module Packing {

  import opened Common
  import opened PipeSpec

  type uint32 = x: int | 0 <= x < 0x1_0000_0000

  datatype Item = Item(kind: uint32, tupType: uint32, data: seq<byte>)

  const LOCALMSGSZ := 8192
  const HEADER := 16
  const NO_MORE_ITEMS: uint32 := 0

  /** MAXALIGN */
  function Align(n: nat): (a: nat)
    ensures a % 8 == 0 && n <= a < n + 8
  {
    (n + 7) / 8 * 8
  }

  lemma AlignFixed(n: nat)
    requires n % 8 == 0
    ensures Align(n) == n
  {
  }

  function Zeros(n: nat): seq<byte> {
    seq(n, i => 0)
  }

  function Put32(x: uint32): (b: seq<byte>)
    ensures |b| == 4
  {
    [x % 256, x / 256 % 256, x / 65536 % 256, x / 16777216]
  }

  /** The bytes of a word lie lowest first */
  lemma PutAt(x: uint32, i: nat)
    requires i < 4
    ensures Put32(x)[i] == x / Pow256(i) % 256
  {
    assert Pow256(1) == 256 && Pow256(2) == 65536 && Pow256(3) == 16777216;
    assert x / 16777216 % 256 == x / 16777216;
  }

  function Word(a: int, b: int, c: int, d: int): int {
    a + 256 * b + 65536 * c + 16777216 * d
  }

  function Get32(b: seq<byte>, o: nat): uint32
    requires o + 4 <= |b|
  {
    Word(b[o], b[o + 1], b[o + 2], b[o + 3])
  }

  lemma GetPut(b: seq<byte>, o: nat, x: uint32)
    requires o + 4 <= |b| && b[o..o + 4] == Put32(x)
    ensures Get32(b, o) == x
  {
    var p := b[o..o + 4];
    assert b[o] == p[0] && b[o + 1] == p[1] && b[o + 2] == p[2] && b[o + 3] == p[3];
    Bytes(x);
  }

  lemma Bytes(x: uint32)
    ensures x % 256 + 256 * (x / 256 % 256) + 65536 * (x / 65536 % 256) + 16777216 * (x / 16777216) == x
  {
    assert x / 256 == x / 65536 * 256 + x / 256 % 256;
    assert x / 65536 == x / 16777216 * 256 + x / 65536 % 256;
  }

  // ---------------------------------------------------------------- the layout

  function Head(size: uint32, kind: uint32, tupType: uint32): (b: seq<byte>)
    ensures |b| == HEADER
  {
    Put32(size) + Put32(kind) + Put32(tupType) + Zeros(4)
  }

  /** An item whose size the header can hold */
  predicate Sized(it: Item) {
    |it.data| < 0x8000_0000
  }

  function Field(it: Item): (b: seq<byte>)
    requires Sized(it)
    ensures |b| == HEADER + Align(|it.data|)
  {
    Head(|it.data|, it.kind, it.tupType) + it.data + Zeros(Align(|it.data|) - |it.data|)
  }

  predicate AllSized(its: seq<Item>) {
    forall i :: 0 <= i < |its| ==> Sized(its[i])
  }

  function Layout(its: seq<Item>): seq<byte>
    requires AllSized(its)
  {
    if its == [] then [] else Field(its[0]) + Layout(its[1..])
  }

  lemma {:induction false} LayoutAppend(its: seq<Item>, it: Item)
    requires AllSized(its) && Sized(it)
    ensures Layout(its + [it]) == Layout(its) + Field(it)
  {
    if its == [] {
      assert its + [it] == [it];
      assert Layout([it]) == Field(it) + [];
    } else {
      assert (its + [it])[1..] == its[1..] + [it];
      LayoutAppend(its[1..], it);
    }
  }

  /** The item that starts at offset o, if the buffer reaches to its end */
  function ItemAt(b: seq<byte>, o: nat): Option<Item> {
    if o + HEADER <= |b| && o + HEADER + Get32(b, o) <= |b|
    then Some(Item(Get32(b, o + 4), Get32(b, o + 8), b[o + HEADER..o + HEADER + Get32(b, o)]))
    else None
  }

  lemma SubSlice(b: seq<byte>, o: nat, f: seq<byte>, i: nat, j: nat)
    requires o + |f| <= |b| && b[o..o + |f|] == f && i <= j <= |f|
    ensures b[o + i..o + j] == f[i..j]
  {
    assert forall k :: o <= k < o + |f| ==> b[k] == b[o..o + |f|][k - o];
    assert b[o + i..o + j] == b[o..o + |f|][i..j];
  }

  lemma FieldParts(it: Item)
    requires Sized(it)
    ensures var f, n := Field(it), |it.data|;
      && f[0..4] == Put32(n) && f[4..8] == Put32(it.kind) && f[8..12] == Put32(it.tupType)
      && f[HEADER..HEADER + n] == it.data
  {
  }

  /** A word of the field is read where it was put */
  lemma WordAt(b: seq<byte>, o: nat, f: seq<byte>, i: nat, x: uint32)
    requires o + |f| <= |b| && b[o..o + |f|] == f && i + 4 <= |f| && f[i..i + 4] == Put32(x)
    ensures Get32(b, o + i) == x
  {
    SubSlice(b, o, f, i, i + 4);
    GetPut(b, o + i, x);
  }

  lemma WordsAt(b: seq<byte>, o: nat, it: Item)
    requires Sized(it) && o + |Field(it)| <= |b| && b[o..o + |Field(it)|] == Field(it)
    ensures Get32(b, o) == |it.data| && Get32(b, o + 4) == it.kind && Get32(b, o + 8) == it.tupType
  {
    FieldParts(it);
    WordAt(b, o, Field(it), 0, |it.data|);
    WordAt(b, o, Field(it), 4, it.kind);
    WordAt(b, o, Field(it), 8, it.tupType);
  }

  lemma DataAt(b: seq<byte>, o: nat, it: Item)
    requires Sized(it) && o + |Field(it)| <= |b| && b[o..o + |Field(it)|] == Field(it)
    ensures b[o + HEADER..o + HEADER + |it.data|] == it.data
  {
    FieldParts(it);
    SubSlice(b, o, Field(it), HEADER, HEADER + |it.data|);
  }

  /** Reading where an item was laid out gives that item */
  lemma ItemLaidOut(b: seq<byte>, o: nat, it: Item)
    requires Sized(it) && o + |Field(it)| <= |b| && b[o..o + |Field(it)|] == Field(it)
    ensures ItemAt(b, o) == Some(it)
  {
    WordsAt(b, o, it);
    DataAt(b, o, it);
  }

  /** The first of several items is where the layout starts, and the others follow it */
  lemma FirstLaidOut(b: seq<byte>, o: nat, its: seq<Item>)
    requires AllSized(its) && its != [] && o <= |b| && b[o..] == Layout(its)
    ensures ItemAt(b, o) == Some(its[0])
    ensures var p := o + HEADER + Align(|its[0].data|); p <= |b| && b[p..] == Layout(its[1..])
  {
    var f := Field(its[0]);
    assert b[o..] == f + Layout(its[1..]);
    assert b[o..o + |f|] == b[o..][..|f|];
    assert b[o + |f|..] == b[o..][|f|..];
    ItemLaidOut(b, o, its[0]);
  }

  /** A message is what packing these items left: the header's bytes, then the layout */
  predicate Packed(m: Message, its: seq<Item>) {
    && AllSized(its) && m.items == |its| && |m.bytes| >= HEADER
    && m.bytes[HEADER..] == Layout(its)
  }

  // ---------------------------------------------------------------- the output buffer

  /** The items lie in the first size bytes, and the rest is clear */
  ghost predicate Filled(b: seq<byte>, size: nat, its: seq<Item>) {
    && |b| == LOCALMSGSZ && size % 8 == 0 && HEADER <= size <= LOCALMSGSZ - HEADER
    && AllSized(its) && b[HEADER..size] == Layout(its)
    && forall i :: size <= i < |b| ==> b[i] == 0
  }

  class OutBuffer {
    const bytes: array<byte>
    var size: nat
    var count: nat
    var next: nat
    ghost var items: seq<Item>

    ghost predicate Valid()
      reads this, bytes
    {
      next == size && count == |items| && Filled(bytes[..], size, items)
    }

    /** init_buffer */
    constructor ()
      ensures Valid() && items == [] && fresh(bytes)
    {
      bytes := new byte[LOCALMSGSZ](i => 0);
      size, count, next, items := HEADER, 0, HEADER, [];
    }

    method Write(o: nat, s: seq<byte>)
      requires o + |s| <= bytes.Length
      modifies bytes
      ensures bytes[..] == old(bytes[..o]) + s + old(bytes[o + |s|..])
    {
      var i := 0;
      while i < |s|
        invariant i <= |s|
        invariant bytes[..o] == old(bytes[..o]) && bytes[o + i..] == old(bytes[o + i..])
        invariant bytes[o..o + i] == s[..i]
      {
        bytes[o + i] := s[i];
        i := i + 1;
      }
      assert s[..|s|] == s && bytes[..] == bytes[..o] + bytes[o..o + |s|] + bytes[o + |s|..];
    }

    /** The two copies of pack_field; the padding is zero already */
    method WriteField(it: Item, ghost len: nat)
      requires Sized(it) && len == |Field(it)| && Filled(bytes[..], next, items) && next + len <= LOCALMSGSZ - HEADER
      modifies bytes
      ensures Filled(bytes[..], next + len, items + [it])
    {
      ghost var was := bytes[..];
      Write(next, Head(|it.data|, it.kind, it.tupType));
      Write(next + HEADER, it.data);
      FieldWritten(was, bytes[..], next, it);
      FieldPacked(was, bytes[..], next, items, it);
    }

    /** pack_field: refused exactly when the item does not fit the local buffer */
    method Pack(it: Item) returns (ok: bool)
      requires Valid() && Sized(it)
      modifies this, bytes
      ensures Valid()
      ensures ok <==> old(size) + HEADER + Align(|it.data|) <= LOCALMSGSZ - HEADER
      ensures items == if ok then old(items) + [it] else old(items)
      ensures !ok ==> size == old(size) && bytes[..] == old(bytes[..])
    {
      var len := Align(|it.data|) + HEADER;
      AlignFixed(size);
      if Align(size) + len > LOCALMSGSZ - HEADER {
        return false;
      }
      Append(it, len);
      ok := true;
    }

    /** The rest of pack_field, once there is room */
    method Append(it: Item, len: nat)
      requires Valid() && Sized(it) && len == |Field(it)| && size + len <= LOCALMSGSZ - HEADER
      modifies this, bytes
      ensures Valid() && items == old(items) + [it]
    {
      WriteField(it, len);
      size, count, next := size + len, count + 1, next + len;
      items := items + [it];
    }

    /** The message that sending copies into shared memory */
    method Copy() returns (m: Message)
      requires Valid()
      ensures Packed(m, items) && |m.bytes| == size
    {
      m := Message(bytes[..size], count);
      assert bytes[..size][HEADER..] == bytes[HEADER..size];
    }
  }

  lemma FieldPacked(was: seq<byte>, now: seq<byte>, size: nat, its: seq<Item>, it: Item)
    requires Sized(it) && Filled(was, size, its) && size + |Field(it)| <= LOCALMSGSZ - HEADER
    requires now == was[..size] + Field(it) + was[size + |Field(it)|..]
    ensures Filled(now, size + |Field(it)|, its + [it])
  {
    LayoutAppend(its, it);
    Spliced(was, now, size, Field(it));
    Multiple(size, Align(|it.data|));
  }

  lemma Multiple(m: nat, n: nat)
    requires m % 8 == 0 && n % 8 == 0
    ensures (m + (HEADER + n)) % 8 == 0
  {
  }

  lemma Spliced(was: seq<byte>, now: seq<byte>, o: nat, f: seq<byte>)
    requires HEADER <= o && o + |f| <= |was| && forall i :: o <= i < |was| ==> was[i] == 0
    requires now == was[..o] + f + was[o + |f|..]
    ensures |now| == |was| && now[HEADER..o + |f|] == was[HEADER..o] + f
    ensures forall i :: o + |f| <= i < |now| ==> now[i] == 0
  {
  }

  lemma FieldWritten(was: seq<byte>, now: seq<byte>, o: nat, it: Item)
    requires Sized(it) && |was| == |now| && o + |Field(it)| <= |was|
    requires forall i :: o <= i < |was| ==> was[i] == 0
    requires now == (was[..o] + Head(|it.data|, it.kind, it.tupType) + was[o + HEADER..])[..o + HEADER] + it.data
                    + (was[..o] + Head(|it.data|, it.kind, it.tupType) + was[o + HEADER..])[o + HEADER + |it.data|..]
    ensures now == was[..o] + Field(it) + was[o + |Field(it)|..]
  {
    var h, z := Head(|it.data|, it.kind, it.tupType), Align(|it.data|) - |it.data|;
    var mid := was[..o] + h + was[o + HEADER..];
    assert mid[..o + HEADER] == was[..o] + h;
    assert mid[o + HEADER + |it.data|..] == was[o + HEADER + |it.data|..];
    assert was[o + HEADER + |it.data|..] == Zeros(z) + was[o + |Field(it)|..];
  }

  // ---------------------------------------------------------------- the input buffer

  datatype Unpacked = Nothing | Mismatch(kind: uint32) | Got(item: Item)

  class InBuffer {
    const bytes: seq<byte>
    var count: nat
    var next: Option<nat>
    ghost var rest: seq<Item>

    ghost predicate Valid()
      reads this
    {
      && AllSized(rest) && count == |rest| && (rest == [] || next.Some?)
      && (rest != [] ==> next.value <= |bytes| && bytes[next.value..] == Layout(rest))
    }

    /** dbms_pipe_receive_message on a message that was packed from these items */
    constructor (m: Message, ghost its: seq<Item>)
      requires Packed(m, its)
      ensures Valid() && rest == its
    {
      bytes, count, next, rest := m.bytes, m.items, Some(HEADER), its;
    }

    /** unpack_field of a buffer with items left */
    method UnpackField() returns (it: Item)
      requires Valid() && rest != []
      modifies this
      ensures Valid() && [it] + rest == old(rest)
    {
      var o := next.value;
      FirstLaidOut(bytes, o, rest);
      it := ReadItem(o);
      Advance(o + HEADER + Align(|it.data|));
    }

    method ReadItem(o: nat) returns (it: Item)
      requires ItemAt(bytes, o).Some?
      ensures ItemAt(bytes, o) == Some(it)
    {
      var size := Get32(bytes, o);
      it := Item(Get32(bytes, o + 4), Get32(bytes, o + 8), bytes[o + HEADER..o + HEADER + size]);
    }

    /** The end of unpack_field */
    method Advance(o: nat)
      requires AllSized(rest) && count == |rest| > 0 && o <= |bytes| && bytes[o..] == Layout(rest[1..])
      modifies this
      ensures Valid() && rest == old(rest)[1..]
    {
      count := count - 1;
      next := if count > 0 then Some(o) else None;
      rest := rest[1..];
    }

    /** dbms_pipe_unpack_message: the next item if it is of the type asked for */
    method Unpack(kind: uint32) returns (r: Unpacked)
      requires Valid() && (rest != [] ==> rest[0].kind != NO_MORE_ITEMS)
      modifies this
      ensures Valid()
      ensures r.Nothing? <==> old(rest) == []
      ensures r.Mismatch? <==> old(rest) != [] && old(rest)[0].kind != kind
      ensures r.Mismatch? ==> r.kind == old(rest)[0].kind
      ensures if r.Got? then [r.item] + rest == old(rest) && r.item.kind == kind else rest == old(rest)
    {
      if count <= 0 || next.None? {
        return Nothing;
      }
      FirstLaidOut(bytes, next.value, rest);
      var found := Get32(bytes, next.value + 4);
      if found == NO_MORE_ITEMS {
        return Nothing;
      }
      if found != kind {
        return Mismatch(found);
      }
      var it := UnpackField();
      r := Got(it);
    }
  }

  /** Unpacking as long as there are items gives back all that were packed, in order */
  method UnpackAll(b: InBuffer) returns (its: seq<Item>)
    requires b.Valid()
    modifies b
    ensures its == old(b.rest) && b.rest == []
  {
    its := [];
    while b.count > 0
      invariant b.Valid() && its + b.rest == old(b.rest)
      decreases b.count
    {
      ghost var r := b.rest;
      var it := b.UnpackField();
      assert its + r == its + [it] + b.rest;
      its := its + [it];
    }
  }
}
