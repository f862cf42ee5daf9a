/** A sequence of items packed, sent, received and unpacked. */
module Transfer {

  import opened Common
  import opened PipeSpec
  import opened Packing
  import opened Pipes

  lemma {:induction false} LayoutSplit(a: seq<Item>, b: seq<Item>)
    requires AllSized(a) && AllSized(b)
    ensures AllSized(a + b) && |Layout(a + b)| == |Layout(a)| + |Layout(b)|
  {
    if a == [] {
      assert a + b == b;
    } else {
      LayoutSplit(a[1..], b);
      assert (a + b)[1..] == a[1..] + b;
    }
  }

  lemma LayoutNext(its: seq<Item>, i: nat)
    requires AllSized(its) && i < |its|
    ensures its[..i + 1] == its[..i] + [its[i]]
    ensures |Layout(its[..i + 1])| == |Layout(its[..i])| + HEADER + Align(|its[i].data|)
    ensures |Layout(its[..i + 1])| <= |Layout(its)|
  {
    assert its[..i + 1] == its[..i] + [its[i]];
    LayoutAppend(its[..i], its[i]);
    LayoutSplit(its[..i + 1], its[i + 1..]);
    assert its == its[..i + 1] + its[i + 1..];
  }

  /** All items fit one message exactly when their layout does */
  method PackAll(its: seq<Item>) returns (b: OutBuffer, ok: bool)
    requires AllSized(its)
    ensures fresh(b) && fresh(b.bytes) && b.Valid()
    ensures ok <==> HEADER + |Layout(its)| <= LOCALMSGSZ - HEADER
    ensures ok ==> b.items == its
  {
    b := new OutBuffer();
    var i := 0;
    while i < |its|
      invariant i <= |its| && b.Valid() && b.items == its[..i] && fresh(b) && fresh(b.bytes)
    {
      LayoutNext(its, i);
      assert b.size == HEADER + |Layout(its[..i])|;
      ok := b.Pack(its[i]);
      if !ok {
        return;
      }
      i := i + 1;
    }
    assert its[..|its|] == its;
    ok := true;
  }

  /** The items fit one message */
  predicate Fits(its: seq<Item>)
    requires AllSized(its)
  {
    HEADER + |Layout(its)| <= LOCALMSGSZ - HEADER
  }

  /** The i-th message was packed from the i-th list of items */
  ghost predicate PackedEach(ms: seq<Message>, its: seq<seq<Item>>) {
    |ms| == |its| && forall i :: 0 <= i < |ms| ==> Packed(ms[i], its[i])
  }

  /** Packing and dbms_pipe_send_message: sent exactly when the items fit and the pipe admits the message, which is then last */
  method Send(t: Table, name: string, uid: nat, its: seq<Item>, limit: Option<int>, mem: Memory)
    returns (sent: bool, ghost m: Message)
    requires t.Valid() && AllSized(its)
    modifies t.pipes
    ensures t.Valid() && (sent <==> Fits(its) && Admits(old(t.pipes[..]), name, uid, limit, mem))
    ensures Fits(its) ==> Packed(m, its) && t.pipes[..] == Add(old(t.pipes[..]), name, uid, Some(m), limit, mem).0
    ensures !Fits(its) ==> t.pipes[..] == old(t.pipes[..])
    ensures Queue(t.pipes[..], name) == if sent then Queue(old(t.pipes[..]), name) + [m] else Queue(old(t.pipes[..]), name)
  {
    var b, ok := PackAll(its);
    if !ok {
      m := Message([], 0);
      return false, m;
    }
    var msg := b.Copy();
    m := msg;
    AddOutcome(t.pipes[..], name, uid, m, limit, mem);
    AddQueue(t.pipes[..], name, uid, Some(m), limit, mem, name);
    var out := t.AddToPipe(name, uid, Some(msg), limit, mem);
    sent := out.Yes?;
  }

  /** dbms_pipe_receive_message and unpacking: the items of the message that waited longest, if the caller may have it */
  method Receive(t: Table, name: string, uid: nat, nameFits: bool, ghost waiting: seq<seq<Item>>)
    returns (got: Option<seq<Item>>)
    requires t.Valid() && PackedEach(Queue(t.pipes[..], name), waiting)
    modifies t.pipes
    ensures t.Valid() && (got.Some? <==> waiting != [] && Permitted(old(t.pipes[..]), name, uid))
    ensures got.Some? ==> got.value == waiting[0] && PackedEach(Queue(t.pipes[..], name), waiting[1..])
    ensures got.None? ==> Queue(t.pipes[..], name) == Queue(old(t.pipes[..]), name)
  {
    GetQueue(t.pipes[..], name, uid, nameFits, name);
    ghost var q := Queue(t.pipes[..], name);
    var r, out := t.GetFromPipe(name, uid, nameFits);
    if r.None? {
      return None;
    }
    assert q[0] == r.value && q[1..] == Queue(t.pipes[..], name);
    var its := UnpackMessage(r.value, waiting[0]);
    got := Some(its);
  }

  method UnpackMessage(m: Message, ghost its: seq<Item>) returns (got: seq<Item>)
    requires Packed(m, its)
    ensures got == its
  {
    var b := new InBuffer(m, its);
    got := UnpackAll(b);
  }

  /** Items sent and then one message received, whatever already waits: who may write may read, and gets what waited longest */
  method SendReceive(t: Table, name: string, uid: nat, its: seq<Item>, limit: Option<int>, mem: Memory, ghost waiting: seq<seq<Item>>)
    returns (sent: bool, got: Option<seq<Item>>)
    requires t.Valid() && AllSized(its) && PackedEach(Queue(t.pipes[..], name), waiting)
    modifies t.pipes
    ensures t.Valid() && (sent <==> Fits(its) && Admits(old(t.pipes[..]), name, uid, limit, mem))
    ensures sent ==> got == Some((waiting + [its])[0]) && PackedEach(Queue(t.pipes[..], name), (waiting + [its])[1..])
    ensures !sent ==> got.None? && Queue(t.pipes[..], name) == Queue(old(t.pipes[..]), name)
  {
    got := None;
    ghost var before := t.pipes[..];
    ghost var m;
    sent, m := Send(t, name, uid, its, limit, mem);
    if sent {
      StillPermitted(before, name, uid, m, limit, mem);
      PackedMore(Queue(before, name), waiting, m, its);
      got := Receive(t, name, uid, mem.name, waiting + [its]);
    }
  }

  lemma PackedMore(ms: seq<Message>, lists: seq<seq<Item>>, m: Message, its: seq<Item>)
    requires PackedEach(ms, lists) && Packed(m, its)
    ensures PackedEach(ms + [m], lists + [its])
  {
  }

  /** Who may write to a pipe may read from it */
  lemma StillPermitted(ps: seq<Pipe>, name: string, uid: nat, m: Message, limit: Option<int>, mem: Memory)
    requires TableOk(ps) && Add(ps, name, uid, Some(m), limit, mem).1.Yes?
    ensures Permitted(Add(ps, name, uid, Some(m), limit, mem).0, name, uid)
  {
    AddQueue(ps, name, uid, Some(m), limit, mem, name);
    var f, t := Find(ps, name, uid, false, mem.name), Add(ps, name, uid, Some(m), limit, mem).0;
    Unique(t, f.k, name);
  }

  // ---------------------------------------------------------------- whole runs

  /** One step of a run on the table, and what it took out of the pipe of that name */
  method Perform(t: Table, a: Action, name: string) returns (out: seq<Message>)
    requires t.Valid()
    modifies t.pipes
    ensures t.Valid() && t.pipes[..] == Next(old(t.pipes[..]), a) && out == Out(old(t.pipes[..]), a, name)
  {
    out := [];
    match a {
      case Sends(_, uid, msg, limit, mem) =>
        var _ := t.AddToPipe(a.name, uid, msg, limit, mem);
      case Receives(_, uid, nameFits) =>
        var r, _ := t.GetFromPipe(a.name, uid, nameFits);
        if a.name == name && r.Some? {
          out := [r.value];
        }
      case Drops(_, uid, purge) =>
        var q := Queue(t.pipes[..], name);
        var dropped := t.RemovePipe(a.name, uid, purge);
        if a.name == name && dropped.Yes? {
          out := q;
        }
      case Creates(_, uid, limit, private, nameFits) =>
        var _ := t.CreatePipe(a.name, uid, limit, private, nameFits);
    }
  }

  /** A run on the table is the run of the state machine */
  method Play(t: Table, acts: seq<Action>, name: string) returns (left: seq<Message>)
    requires t.Valid()
    modifies t.pipes
    ensures t.Valid() && t.pipes[..] == Run(old(t.pipes[..]), acts) && left == Left(old(t.pipes[..]), acts, name)
  {
    left := [];
    var i := 0;
    assert acts[0..] == acts;
    while i < |acts|
      invariant i <= |acts| && t.Valid() && Run(t.pipes[..], acts[i..]) == Run(old(t.pipes[..]), acts)
      invariant left + Left(t.pipes[..], acts[i..], name) == Left(old(t.pipes[..]), acts, name)
    {
      ghost var ps := t.pipes[..];
      var out := Perform(t, acts[i], name);
      assert acts[i..][1..] == acts[i + 1..];
      assert left + (out + Left(t.pipes[..], acts[i + 1..], name)) == (left + out) + Left(t.pipes[..], acts[i + 1..], name);
      left := left + out;
      i := i + 1;
    }
  }

  /**
   In every run from the zeroed table: the i-th message to leave a pipe was packed
   from the items of the i-th to enter it, and what still waits from the ones after.
   */
  lemma InOrder(acts: seq<Action>, name: string, its: seq<seq<Item>>)
    requires PackedEach(Entered(Zeroed(), acts, name), its)
    ensures |Left(Zeroed(), acts, name)| <= |its|
    ensures PackedEach(Left(Zeroed(), acts, name), its[..|Left(Zeroed(), acts, name)|])
    ensures PackedEach(Queue(Run(Zeroed(), acts), name), its[|Left(Zeroed(), acts, name)|..])
  {
    FromZero(acts, name);
    PartsPacked(Left(Zeroed(), acts, name), Queue(Run(Zeroed(), acts), name), its);
  }

  lemma PartsPacked(l: seq<Message>, q: seq<Message>, its: seq<seq<Item>>)
    requires PackedEach(l + q, its)
    ensures |l| <= |its| && PackedEach(l, its[..|l|]) && PackedEach(q, its[|l|..])
  {
    forall i | 0 <= i < |l|
      ensures Packed(l[i], its[i])
    {
      assert (l + q)[i] == l[i];
    }
    forall i | 0 <= i < |q|
      ensures Packed(q[i], its[|l| + i])
    {
      assert (l + q)[|l| + i] == q[i];
    }
  }

  method UnpackEach(ms: seq<Message>, ghost its: seq<seq<Item>>) returns (got: seq<seq<Item>>)
    requires PackedEach(ms, its)
    ensures got == its
  {
    got := [];
    var i := 0;
    while i < |ms|
      invariant i <= |ms| && got == its[..i]
    {
      var next := UnpackMessage(ms[i], its[i]);
      got := got + [next];
      i := i + 1;
    }
  }

  /** Any run of the table that starts zeroed, and all that left a pipe unpacked: the items that were packed, in order */
  method Deliver(t: Table, acts: seq<Action>, name: string, ghost its: seq<seq<Item>>) returns (got: seq<seq<Item>>)
    requires t.Valid() && t.pipes[..] == Zeroed() && PackedEach(Entered(Zeroed(), acts, name), its)
    modifies t.pipes
    ensures got <= its && |got| == |Left(Zeroed(), acts, name)|
    ensures t.Valid() && PackedEach(Queue(t.pipes[..], name), its[|got|..])
  {
    InOrder(acts, name, its);
    var left := Play(t, acts, name);
    got := UnpackEach(left, its[..|left|]);
  }
}
