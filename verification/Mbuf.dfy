/** Growing memory buffers, and chains of push filters that end in one. */
module Mbuf {

  import opened Common

  class MBuf {
    var data: array<byte>
    var dataEnd: nat
    var readPos: nat
    var noWrite: bool

    ghost predicate Valid()
      reads this
    {
      readPos <= dataEnd <= data.Length
    }

    /** All that was appended */
    ghost function Contents(): bytes
      requires Valid()
      reads this, data
    {
      data[..dataEnd]
    }

    /** mbuf_create */
    constructor (len: nat)
      ensures Valid() && fresh(data) && Contents() == [] && readPos == 0 && !noWrite
    {
      data := new byte[if len == 0 then 8192 else len](i => 0);
      dataEnd, readPos, noWrite := 0, 0, false;
    }

    /** prepare_room: the buffer grows in steps until the block fits */
    method PrepareRoom(len: nat)
      requires Valid()
      modifies this`data
      ensures Valid() && dataEnd + len <= data.Length && Contents() == old(Contents())
      ensures data == old(data) || fresh(data)
    {
      if dataEnd + len <= data.Length {
        return;
      }
      var more := (len + 16384 + 16384 - 1) / 16384 * 16384;
      var grown := new byte[data.Length + more](i => 0);
      var i := 0;
      while i < dataEnd
        invariant i <= dataEnd && data == old(data) && grown[..i] == data[..i]
      {
        grown[i] := data[i];
        i := i + 1;
      }
      data := grown;
    }

    static method Copy(dst: array<byte>, o: nat, buf: bytes)
      requires o + |buf| <= dst.Length
      modifies dst
      ensures dst[..o + |buf|] == old(dst[..o]) + buf
    {
      var i := 0;
      while i < |buf|
        invariant i <= |buf| && dst[..o + i] == old(dst[..o]) + buf[..i]
      {
        dst[o + i] := buf[i];
        i := i + 1;
      }
      assert buf[..|buf|] == buf;
    }

    /** mbuf_append; refused once something was taken out */
    method Append(buf: bytes) returns (ok: bool)
      requires Valid()
      modifies this, data
      ensures Valid() && (data == old(data) || fresh(data)) && readPos == old(readPos) && noWrite == old(noWrite)
      ensures ok <==> !old(noWrite)
      ensures Contents() == if ok then old(Contents()) + buf else old(Contents())
    {
      if noWrite {
        return false;
      }
      ghost var was := Contents();
      PrepareRoom(|buf|);
      Copy(data, dataEnd, buf);
      dataEnd := dataEnd + |buf|;
      ok := true;
    }

    /** mbuf_grab: the next bytes, at most len; no more may be appended */
    method Grab(len: nat) returns (got: bytes)
      requires Valid()
      modifies this`readPos, this`noWrite
      ensures Valid() && noWrite && Contents() == old(Contents())
      ensures |got| == (if len < |Contents()| - old(readPos) then len else |Contents()| - old(readPos))
      ensures old(readPos) + |got| == readPos && got == Contents()[old(readPos)..readPos]
    {
      var n := len;
      if n > dataEnd - readPos {
        n := dataEnd - readPos;
      }
      noWrite := true;
      got := data[readPos..readPos + n];
      readPos := readPos + n;
    }
  }

  // ---------------------------------------------------------------- chains of filters

  /** A buffering pass-through filter: block size (0 for none) and what is in its buffer */
  datatype Filter = Filter(blockSize: nat, buf: bytes)

  predicate FilterOk(f: Filter) {
    |f.buf| <= f.blockSize
  }

  /** What the filters from i on still hold, the earliest bytes first */
  function Held(fs: seq<Filter>, i: nat): bytes
    requires i <= |fs|
    decreases |fs| - i
  {
    if i == |fs| then [] else Held(fs, i + 1) + fs[i].buf
  }

  /** A filter's own change is not seen further down */
  lemma {:induction false} HeldBelow(fs: seq<Filter>, k: nat, f: Filter, i: nat)
    requires k < i <= |fs|
    ensures Held(fs[k := f], i) == Held(fs, i)
    decreases |fs| - i
  {
    if i < |fs| {
      HeldBelow(fs, k, f, i + 1);
    }
  }

  lemma HeldEmpty(fs: seq<Filter>, i: nat)
    requires i < |fs| && fs[i].buf == []
    ensures Held(fs, i) == Held(fs, i + 1)
  {
  }

  /** Same block sizes, and the filters before i are the same */
  ghost predicate SameUpTo(fs: seq<Filter>, gs: seq<Filter>, i: nat) {
    && |fs| == |gs| && (forall j :: 0 <= j < |fs| ==> fs[j].blockSize == gs[j].blockSize)
    && (forall j :: 0 <= j < |fs| && j < i ==> fs[j] == gs[j])
  }

  /** The filter at an index was handed on this many bytes at once */
  datatype HandOn = HandOn(filter: nat, len: nat)

  /** Every new entry of a buffering filter is exactly one block long */
  ghost predicate WholeBlocks(before: seq<HandOn>, after: seq<HandOn>, fs: seq<Filter>) {
    && |before| <= |after| && after[..|before|] == before
    && forall j :: |before| <= j < |after| ==> after[j].filter < |fs| && (fs[after[j].filter].blockSize > 0 ==> after[j].len == fs[after[j].filter].blockSize)
  }

  lemma Spliced(a: bytes, b: bytes, data: bytes, n: nat)
    requires n <= |data|
    ensures (a + (b + data[..n])) + data[n..] == (a + b) + data && (a + data[..n]) + data[n..] == a + data
  {
    assert data == data[..n] + data[n..];
  }

  class Chain {
    var filters: seq<Filter>
    const sink: MBuf
    ghost var log: seq<HandOn>

    constructor (fs: seq<Filter>, m: MBuf)
      requires m.Valid() && !m.noWrite && forall i :: 0 <= i < |fs| ==> FilterOk(fs[i])
      ensures Valid() && filters == fs && sink == m && log == []
    {
      filters, sink, log := fs, m, [];
    }

    ghost predicate Valid()
      reads this, sink
    {
      sink.Valid() && !sink.noWrite && forall i :: 0 <= i < |filters| ==> FilterOk(filters[i])
    }

    /** Delivered and held by the filters from i on, in order */
    ghost function Through(i: nat): bytes
      requires sink.Valid() && i <= |filters|
      reads this, sink, sink.data
    {
      sink.Contents() + Held(filters, i)
    }

    /** wrap_process of filter i: what it hands on goes to the next one */
    method Wrap(i: nat, data: bytes)
      requires Valid() && i < |filters| && (filters[i].blockSize > 0 ==> |data| == filters[i].blockSize)
      modifies this, sink, sink.data
      ensures Valid() && SameUpTo(old(filters), filters, i + 1) && (sink.data == old(sink.data) || fresh(sink.data))
      ensures Through(i + 1) == old(Through(i + 1)) + data
      ensures WholeBlocks(old(log), log, filters)
      decreases |filters| - i, 0, 0
    {
      log := log + [HandOn(i, |data|)];
      Write(i + 1, data);
    }

    /** pushf_write into filter i, or past the last one into the buffer */
    method Write(i: nat, data: bytes)
      requires Valid() && i <= |filters|
      modifies this, sink, sink.data
      ensures Valid() && SameUpTo(old(filters), filters, i) && (sink.data == old(sink.data) || fresh(sink.data))
      ensures Through(i) == old(Through(i)) + data
      ensures WholeBlocks(old(log), log, filters)
      decreases |filters| - i, 2
    {
      if i == |filters| {
        if |data| > 0 {
          var ok := sink.Append(data);
        }
        assert old(Through(i)) == old(sink.Contents()) && Through(i) == sink.Contents();
      } else if filters[i].blockSize == 0 {
        HeldEmpty(filters, i);
        Wrap(i, data);
        HeldEmpty(filters, i);
      } else {
        Buffered(i, data);
      }
    }

    /** pushf_write into a filter with a buffer */
    method Buffered(i: nat, data: bytes)
      requires Valid() && i < |filters| && filters[i].blockSize > 0
      modifies this, sink, sink.data
      ensures Valid() && SameUpTo(old(filters), filters, i) && (sink.data == old(sink.data) || fresh(sink.data))
      ensures Through(i) == old(Through(i)) + data
      ensures WholeBlocks(old(log), log, filters)
      decreases |filters| - i, 1
    {
      var need := filters[i].blockSize - |filters[i].buf|;
      if need > 0 && |data| < need {
        Extend(i, data);
      } else {
        FillUp(i, data, need);
      }
    }

    /** The buffer is filled and handed on, then the rest of the data follows */
    method FillUp(i: nat, data: bytes, need: nat)
      requires Valid() && i < |filters| && filters[i].blockSize > 0 && need + |filters[i].buf| == filters[i].blockSize && need <= |data|
      modifies this, sink, sink.data
      ensures Valid() && SameUpTo(old(filters), filters, i) && (sink.data == old(sink.data) || fresh(sink.data))
      ensures Through(i) == old(Through(i)) + data
      ensures WholeBlocks(old(log), log, filters)
      decreases |filters| - i, 0, 2
    {
      ghost var was, held := Through(i + 1), filters[i].buf;
      Spliced(was, held, data, need);
      FlushFull(i, filters[i].buf + data[..need]);
      Direct(i, data[need..]);
    }

    /** A full buffer goes on, and is empty again */
    method FlushFull(i: nat, block: bytes)
      requires Valid() && i < |filters| && filters[i].blockSize > 0 && |block| == filters[i].blockSize
      modifies this, sink, sink.data
      ensures Valid() && SameUpTo(old(filters), filters, i) && (sink.data == old(sink.data) || fresh(sink.data))
      ensures filters[i].buf == [] && Through(i + 1) == old(Through(i + 1)) + block
      ensures WholeBlocks(old(log), log, filters)
      decreases |filters| - i, 0, 1
    {
      Wrap(i, block);
      Keep(i, []);
    }

    /** The loop of pushf_write that hands on straight from the data, and keeps a last block or less */
    method Direct(i: nat, data: bytes)
      requires Valid() && i < |filters| && filters[i].blockSize > 0 && filters[i].buf == []
      modifies this, sink, sink.data
      ensures Valid() && SameUpTo(old(filters), filters, i) && (sink.data == old(sink.data) || fresh(sink.data))
      ensures Through(i) == old(Through(i + 1)) + data
      ensures WholeBlocks(old(log), log, filters)
      decreases |filters| - i, 0, 1
    {
      var bs, rest := filters[i].blockSize, data;
      ghost var goal := Through(i + 1) + data;
      while |rest| > bs
        invariant Valid() && SameUpTo(old(filters), filters, i + 1) && (sink.data == old(sink.data) || fresh(sink.data))
        invariant Through(i + 1) + rest == goal && WholeBlocks(old(log), log, filters)
      {
        Spliced(Through(i + 1), [], rest, bs);
        Wrap(i, rest[..bs]);
        rest := rest[bs..];
      }
      Keep(i, rest);
    }

    /** More data in the buffer of filter i */
    method Extend(i: nat, data: bytes)
      requires Valid() && i < |filters| && |filters[i].buf| + |data| <= filters[i].blockSize
      modifies this`filters
      ensures Valid() && SameUpTo(old(filters), filters, i)
      ensures Through(i) == old(Through(i)) + data
    {
      ghost var was, held := Through(i + 1), filters[i].buf;
      Spliced(was, held, data, |data|);
      assert data[..|data|] == data && (was + (held + data)) + [] == was + (held + data);
      Keep(i, filters[i].buf + data);
    }

    /** The buffer of filter i changes */
    method Keep(i: nat, b: bytes)
      requires Valid() && i < |filters| && |b| <= filters[i].blockSize
      modifies this`filters
      ensures Valid() && SameUpTo(old(filters), filters, i) && filters[i].buf == b
      ensures Through(i + 1) == old(Through(i + 1)) && Through(i) == Through(i + 1) + b
    {
      HeldBelow(filters, i, filters[i].(buf := b), i + 1);
      filters := filters[i := filters[i].(buf := b)];
    }

    /** pushf_flush: everything held reaches the buffer; the filters keep their positions */
    method Flush()
      requires Valid()
      modifies this, sink, sink.data
      ensures Valid() && (sink.data == old(sink.data) || fresh(sink.data))
      ensures sink.Contents() == old(Through(0))
    {
      ghost var goal := Through(0);
      var i := 0;
      while i < |filters|
        invariant i <= |filters| && Valid() && Through(i) == goal && (sink.data == old(sink.data) || fresh(sink.data))
        decreases |filters| - i
      {
        if filters[i].blockSize > 0 {
          assert Through(i) == Through(i + 1) + filters[i].buf;
          Write(i + 1, filters[i].buf);
        } else {
          HeldEmpty(filters, i);
        }
        i := i + 1;
      }
      assert sink.Contents() + [] == sink.Contents();
    }
  }

  /** Any writes through any chain of such filters, then a flush: the buffer holds what was written, in order */
  method PushAll(fs: seq<Filter>, writes: seq<bytes>) returns (m: MBuf)
    requires forall i :: 0 <= i < |fs| ==> fs[i].buf == []
    ensures m.Valid() && m.Contents() == Concat(writes)
  {
    m := new MBuf(0);
    var c := new Chain(fs, m);
    HeldNothing(fs, 0);
    var j := 0;
    while j < |writes|
      invariant j <= |writes| && c.sink == m && fresh(m) && fresh(c) && fresh(m.data) && c.Valid() && c.Through(0) == Concat(writes[..j])
    {
      assert writes[..j + 1][..j] == writes[..j];
      c.Write(0, writes[j]);
      j := j + 1;
    }
    assert writes[..|writes|] == writes;
    c.Flush();
  }

  lemma {:induction false} HeldNothing(fs: seq<Filter>, i: nat)
    requires i <= |fs| && forall j :: 0 <= j < |fs| ==> fs[j].buf == []
    ensures Held(fs, i) == []
    decreases |fs| - i
  {
    if i < |fs| {
      HeldNothing(fs, i + 1);
    }
  }
}
