/**
 The alert protocol as a state machine. Messages and echoes live in shared
 memory; a message is named by its address, and addresses are never reused. All
 operations run under one exclusive lock, so each is one step.
 */
module AlertSpec {

  import opened Common

  const NOT_USED := -1
  const MAX_EVENTS := 30
  const MAX_LOCKS := 256

  /** max_receivers is an unsigned char and grows by 16 */
  const MAX_RECEIVERS := 240

  /** message_item, without its list links */
  datatype Message = Message(text: Option<string>, id: nat, receivers: seq<int>)

  /** message_echo */
  datatype Echo = Echo(msg: nat, id: nat)

  /** alert_event; its messages in list order */
  datatype Event = Event(name: Option<string>, receivers: seq<int>, number: nat, messages: seq<nat>)

  /** alert_lock: a session and its echoes in list order */
  datatype Lock = Lock(sid: int, echo: seq<Echo>)

  /**
   The shared state; `taken` records which session consumed which message, and
   `sent` which sessions each message was meant for.
   */
  datatype State = State(events: seq<Event>, locks: seq<Lock>, heap: map<nat, Message>, next: nat,
                         taken: set<(nat, int)>, sent: map<nat, set<int>>)

  function Used(rs: seq<int>): set<int> {
    set x | x in rs && x != NOT_USED
  }

  predicate Distinct(rs: seq<int>) {
    forall i, j :: 0 <= i < j < |rs| && rs[i] == rs[j] ==> rs[i] == NOT_USED
  }

  /** remove_receiver: the session's entry becomes NOT_USED */
  function Without(rs: seq<int>, s: int): seq<int> {
    seq(|rs|, i requires 0 <= i < |rs| => if rs[i] == s then NOT_USED else rs[i])
  }

  lemma WithoutUsed(rs: seq<int>, s: int)
    requires s != NOT_USED
    ensures Used(Without(rs, s)) == Used(rs) - {s}
    ensures Distinct(rs) ==> Distinct(Without(rs, s))
  {
    var t := Without(rs, s);
    forall x | x in Used(rs) - {s}
      ensures x in Used(t)
    {
      var i :| 0 <= i < |rs| && rs[i] == x;
      assert t[i] == x;
    }
  }

  /** A list without its element x */
  function Unlink(ms: seq<nat>, x: nat): seq<nat> {
    if ms == [] then [] else if ms[0] == x then ms[1..] else [ms[0]] + Unlink(ms[1..], x)
  }

  predicate NoRepeat(ms: seq<nat>) {
    forall i, j :: 0 <= i < j < |ms| ==> ms[i] != ms[j]
  }

  lemma {:induction false} UnlinkMembers(ms: seq<nat>, x: nat)
    requires NoRepeat(ms)
    ensures NoRepeat(Unlink(ms, x))
    ensures forall y :: y in Unlink(ms, x) <==> y in ms && y != x
  {
    if ms == [] {
    } else {
      var t := ms[1..];
      assert ms == [ms[0]] + t && ms[0] !in t;
      if ms[0] != x {
        UnlinkMembers(t, x);
        var u := Unlink(t, x);
        assert Unlink(ms, x) == [ms[0]] + u;
        assert ms[0] !in u;
      }
    }
  }

  predicate NoRepeatEcho(es: seq<Echo>) {
    forall i, j :: 0 <= i < j < |es| ==> es[i].msg != es[j].msg
  }

  /** The messages a session has echoes for */
  function Echoed(l: Lock): set<nat> {
    set e | e in l.echo :: e.msg
  }

  // ---------------------------------------------------------------- the invariant

  /** Sessions have at most one lock; an unused lock has no echoes */
  ghost predicate LocksOk(st: State) {
    && |st.locks| == MAX_LOCKS
    && (forall i, j :: 0 <= i < j < |st.locks| && st.locks[i].sid == st.locks[j].sid ==> st.locks[i].sid == NOT_USED)
    && (forall k :: 0 <= k < |st.locks| && st.locks[k].sid == NOT_USED ==> st.locks[k].echo == [])
  }

  ghost predicate HasLock(st: State, s: int) {
    exists k :: 0 <= k < |st.locks| && st.locks[k].sid == s
  }

  /** A named event has receivers, each with a lock; a freed one has nothing left */
  ghost predicate EventOk(st: State, e: Event) {
    && |e.receivers| <= MAX_RECEIVERS && |e.receivers| % 16 == 0
    && Distinct(e.receivers) && NoRepeat(e.messages) && e.number == |Used(e.receivers)|
    && (e.name.None? <==> Used(e.receivers) == {}) && (e.name.None? ==> e.messages == [])
    && forall s :: s in Used(e.receivers) ==> HasLock(st, s)
  }

  ghost predicate EventsOk(st: State) {
    && |st.events| == MAX_EVENTS
    && (forall e {:trigger EventOk(st, st.events[e])} :: 0 <= e < |st.events| ==> EventOk(st, st.events[e]))
    && (forall d, e :: 0 <= d < e < |st.events| && st.events[d].name == st.events[e].name ==> st.events[d].name.None?)
  }

  /** A message is linked in its event, and waits for some receivers of that event */
  ghost predicate MessageOk(st: State, m: nat)
    requires m in st.heap
  {
    var msg := st.heap[m];
    && msg.id < |st.events| && m in st.events[msg.id].messages && m < st.next
    && Distinct(msg.receivers) && Used(msg.receivers) != {}
    && Used(msg.receivers) <= Used(st.events[msg.id].receivers)
  }

  ghost predicate MessagesOk(st: State) {
    && (forall m {:trigger MessageOk(st, m)} :: m in st.heap ==> MessageOk(st, m))
    && (forall e, m :: 0 <= e < |st.events| && m in st.events[e].messages ==> m in st.heap && st.heap[m].id == e)
  }

  /** A session has exactly one echo for each message it has yet to consume */
  ghost predicate EchoesOk(st: State) {
    forall k {:trigger EchoOk(st, st.locks[k])} :: 0 <= k < |st.locks| ==> EchoOk(st, st.locks[k])
  }

  ghost predicate EchoOk(st: State, l: Lock) {
    && NoRepeatEcho(l.echo)
    && (forall e :: e in l.echo ==> e.msg in st.heap && st.heap[e.msg].id == e.id && l.sid in Used(st.heap[e.msg].receivers))
    && (forall m :: m in st.heap && l.sid in Used(st.heap[m].receivers) ==> m in Echoed(l))
  }

  predicate Waits(st: State, m: nat, s: int) {
    m in st.heap && s in Used(st.heap[m].receivers)
  }

  /** Those a message was meant for have consumed it or wait for it, never both */
  predicate Heard(st: State, m: nat, s: int) {
    && m in st.sent
    && (s in st.sent[m] <==> (m, s) in st.taken || Waits(st, m, s))
    && !((m, s) in st.taken && Waits(st, m, s))
  }

  ghost predicate TakenOk(st: State) {
    && (forall m: nat, s {:trigger Heard(st, m, s)} :: m < st.next ==> Heard(st, m, s))
    && (forall m, s :: (m, s) in st.taken ==> m < st.next)
    && (forall m :: m in st.sent ==> m < st.next)
  }

  /** What was sent and what was consumed are never taken back */
  predicate Grows(st: State, t: State) {
    st.taken <= t.taken && forall m :: m in st.sent ==> m in t.sent && t.sent[m] == st.sent[m]
  }

  /** No two waiting messages of an event have the same text */
  ghost predicate TextsOk(st: State) {
    forall m, x {:trigger Differ(st.heap, m, x)} :: m in st.heap && x in st.heap ==> Differ(st.heap, m, x)
  }

  predicate Differ(h: map<nat, Message>, m: nat, x: nat)
    requires m in h && x in h
  {
    m != x && h[m].id == h[x].id ==> h[m].text != h[x].text
  }

  ghost predicate Inv(st: State) {
    LocksOk(st) && EventsOk(st) && MessagesOk(st) && EchoesOk(st) && TakenOk(st) && TextsOk(st)
  }

  // ---------------------------------------------------------------- consuming one echo

  /** Session k has an i-th echo, and what it points to is there */
  predicate Live(st: State, k: nat, i: nat) {
    && k < |st.locks| && i < |st.locks[k].echo|
    && st.locks[k].echo[i].msg in st.heap && st.locks[k].echo[i].id < |st.events|
  }

  /** Session k consumes its i-th echo; the message goes when nobody else waits for it */
  function Consume(st: State, k: nat, i: nat): State
    requires Live(st, k, i)
  {
    var l := st.locks[k];
    var e := l.echo[i];
    var rs := Without(st.heap[e.msg].receivers, l.sid);
    var locks := st.locks[k := l.(echo := l.echo[..i] + l.echo[i + 1..])];
    var taken := st.taken + {(e.msg, l.sid)};
    if Used(rs) == {}
    then State(st.events[e.id := st.events[e.id].(messages := Unlink(st.events[e.id].messages, e.msg))],
               locks, st.heap - {e.msg}, st.next, taken, st.sent)
    else State(st.events, locks, st.heap[e.msg := st.heap[e.msg].(receivers := rs)], st.next, taken, st.sent)
  }

  /** The echo about to be consumed is live */
  lemma EchoLive(st: State, k: nat, i: nat)
    requires Inv(st) && k < |st.locks| && i < |st.locks[k].echo|
    ensures Live(st, k, i)
    ensures var e := st.locks[k].echo[i];
      && st.heap[e.msg].id == e.id && st.events[e.id].name.Some?
      && st.locks[k].sid in Used(st.heap[e.msg].receivers) && st.locks[k].sid != NOT_USED
      && (e.msg, st.locks[k].sid) !in st.taken
  {
    var l := st.locks[k];
    assert EchoOk(st, l) && l.echo[i] in l.echo;
    assert MessageOk(st, l.echo[i].msg);
    assert EventOk(st, st.events[l.echo[i].id]);
    assert Heard(st, l.echo[i].msg, l.sid);
  }

  // What consuming changes: the session stops waiting for that message and nothing else

  /** s no longer waits for m, and m is gone if nobody does */
  ghost predicate HeapStep(h: map<nat, Message>, g: map<nat, Message>, m: nat, s: int)
    requires m in h
  {
    && (m in g <==> Used(h[m].receivers) != {s})
    && (m in g ==> Used(g[m].receivers) == Used(h[m].receivers) - {s} && Distinct(g[m].receivers))
    && (m in g ==> g[m].id == h[m].id && g[m].text == h[m].text)
    && (forall x :: x in h && x != m ==> x in g && g[x] == h[x])
    && (forall x :: x in g ==> x in h)
  }

  /** Equal but for the message m, which is linked if it is still there */
  ghost predicate EventStep(d: Event, e: Event, m: nat, there: bool) {
    && d.name == e.name && d.receivers == e.receivers && d.number == e.number && NoRepeat(e.messages)
    && (forall x :: x in e.messages <==> x in d.messages && (x == m ==> there))
    && (d.messages == [] ==> e.messages == [])
  }

  /** The echoes without the one for m */
  ghost predicate EchoStep(d: seq<Echo>, e: seq<Echo>, m: nat) {
    && NoRepeatEcho(e)
    && (forall x :: x in e <==> x in d && x.msg != m)
    && (d == [] ==> e == [])
  }

  ghost predicate LockStep(d: seq<Lock>, e: seq<Lock>, k: nat, m: nat)
    requires k < |d|
  {
    && |e| == |d| && e[k].sid == d[k].sid && EchoStep(d[k].echo, e[k].echo, m)
    && (forall j :: 0 <= j < |d| && j != k ==> e[j] == d[j])
  }

  ghost predicate EventsStep(d: seq<Event>, e: seq<Event>, m: nat, there: bool) {
    |e| == |d| && forall i :: 0 <= i < |d| ==> EventStep(d[i], e[i], m, there)
  }

  lemma HeapWithout(h: map<nat, Message>, m: nat, s: int)
    requires s != NOT_USED && m in h && s in Used(h[m].receivers) && Distinct(h[m].receivers)
    ensures var rs := Without(h[m].receivers, s);
      HeapStep(h, if Used(rs) == {} then h - {m} else h[m := h[m].(receivers := rs)], m, s)
  {
    WithoutUsed(h[m].receivers, s);
  }

  lemma ConsumeHeap(st: State, k: nat, i: nat)
    requires Inv(st) && Live(st, k, i)
    ensures HeapStep(st.heap, Consume(st, k, i).heap, st.locks[k].echo[i].msg, st.locks[k].sid)
  {
    EchoLive(st, k, i);
    var m, s := st.locks[k].echo[i].msg, st.locks[k].sid;
    assert MessageOk(st, m);
    HeapWithout(st.heap, m, s);
  }

  lemma ConsumeEvents(st: State, k: nat, i: nat)
    requires Inv(st) && Live(st, k, i)
    ensures var m, t := st.locks[k].echo[i].msg, Consume(st, k, i); EventsStep(st.events, t.events, m, m in t.heap)
  {
    EchoLive(st, k, i);
    var e, t := st.locks[k].echo[i], Consume(st, k, i);
    forall d | 0 <= d < |st.events|
      ensures EventStep(st.events[d], t.events[d], e.msg, e.msg in t.heap)
    {
      assert EventOk(st, st.events[d]);
      UnlinkMembers(st.events[d].messages, e.msg);
      assert d != e.id ==> e.msg !in st.events[d].messages;
    }
  }

  lemma EchoGone(es: seq<Echo>, i: nat)
    requires i < |es| && NoRepeatEcho(es)
    ensures EchoStep(es, es[..i] + es[i + 1..], es[i].msg)
  {
    var u := es[..i] + es[i + 1..];
    forall e | e in es && e.msg != es[i].msg
      ensures e in u
    {
      var j :| 0 <= j < |es| && es[j] == e;
      assert if j < i then u[j] == e else u[j - 1] == e;
    }
  }

  lemma ConsumeLocks(st: State, k: nat, i: nat)
    requires Inv(st) && Live(st, k, i)
    ensures LockStep(st.locks, Consume(st, k, i).locks, k, st.locks[k].echo[i].msg)
  {
    assert EchoOk(st, st.locks[k]);
    EchoGone(st.locks[k].echo, i);
  }

  lemma StepKeepsLocks(st: State, t: State, k: nat, m: nat)
    requires LocksOk(st) && k < |st.locks| && LockStep(st.locks, t.locks, k, m)
    ensures LocksOk(t)
    ensures forall s :: HasLock(st, s) ==> HasLock(t, s)
  {
    forall s | HasLock(st, s)
      ensures HasLock(t, s)
    {
      var j :| 0 <= j < |st.locks| && st.locks[j].sid == s;
      assert t.locks[j].sid == s;
    }
  }

  lemma StepKeepsEvents(st: State, t: State, m: nat)
    requires EventsOk(st) && EventsStep(st.events, t.events, m, m in t.heap)
    requires forall s :: HasLock(st, s) ==> HasLock(t, s)
    ensures EventsOk(t)
  {
    forall e | 0 <= e < |t.events|
      ensures EventOk(t, t.events[e])
    {
      assert EventOk(st, st.events[e]) && EventStep(st.events[e], t.events[e], m, m in t.heap);
    }
    forall d, e | 0 <= d < e < |t.events| && t.events[d].name == t.events[e].name
      ensures t.events[d].name.None?
    {
      assert EventStep(st.events[d], t.events[d], m, m in t.heap) && EventStep(st.events[e], t.events[e], m, m in t.heap);
    }
  }

  lemma StepKeepsMessage(st: State, t: State, m: nat, s: int, x: nat)
    requires MessagesOk(st) && m in st.heap && HeapStep(st.heap, t.heap, m, s) && x in t.heap
    requires EventsStep(st.events, t.events, m, m in t.heap) && t.next == st.next
    ensures MessageOk(t, x)
  {
    assert MessageOk(st, x);
    var id := st.heap[x].id;
    assert EventStep(st.events[id], t.events[id], m, m in t.heap);
  }

  lemma StepKeepsMessages(st: State, t: State, m: nat, s: int)
    requires MessagesOk(st) && m in st.heap && HeapStep(st.heap, t.heap, m, s)
    requires EventsStep(st.events, t.events, m, m in t.heap) && t.next == st.next
    ensures MessagesOk(t)
  {
    forall x | x in t.heap
      ensures MessageOk(t, x)
    {
      StepKeepsMessage(st, t, m, s, x);
    }
    forall e, x | 0 <= e < |t.events| && x in t.events[e].messages
      ensures x in t.heap && t.heap[x].id == e
    {
      assert EventStep(st.events[e], t.events[e], m, m in t.heap);
    }
  }

  lemma StepKeepsTaken(st: State, t: State, m: nat, s: int)
    requires TakenOk(st) && m in st.heap && HeapStep(st.heap, t.heap, m, s) && m < st.next
    requires t.next == st.next && t.taken == st.taken + {(m, s)} && t.sent == st.sent && TextsOk(st) && Waits(st, m, s)
    ensures TakenOk(t) && TextsOk(t)
  {
    forall y: nat, z | y < t.next
      ensures Heard(t, y, z)
    {
      assert Heard(st, y, z) && Heard(st, m, s);
    }
    forall x, y | x in t.heap && y in t.heap
      ensures Differ(t.heap, x, y)
    {
      assert Differ(st.heap, x, y);
    }
  }

  lemma StepKeepsEcho(st: State, t: State, k: nat, m: nat, j: nat)
    requires LocksOk(st) && k < |st.locks| && m in st.heap && LockStep(st.locks, t.locks, k, m) && j < |st.locks|
    requires HeapStep(st.heap, t.heap, m, st.locks[k].sid) && EchoOk(st, st.locks[j])
    ensures EchoOk(t, t.locks[j])
  {
    if j == k {
      forall x | x in t.heap && t.locks[k].sid in Used(t.heap[x].receivers)
        ensures x in Echoed(t.locks[k])
      {
        assert x in Echoed(st.locks[k]);
        var e :| e in st.locks[k].echo && e.msg == x;
        assert e in t.locks[k].echo;
      }
    } else if st.locks[k].sid == st.locks[j].sid {
      assert st.locks[j].sid == NOT_USED;
    }
  }

  /** Consuming keeps every invariant, and no pair of message and session is consumed twice */
  lemma ConsumeKeeps(st: State, k: nat, i: nat)
    requires Inv(st) && Live(st, k, i)
    ensures Inv(Consume(st, k, i))
  {
    var t, m, s := Consume(st, k, i), st.locks[k].echo[i].msg, st.locks[k].sid;
    ConsumeHeap(st, k, i);
    ConsumeEvents(st, k, i);
    ConsumeLocks(st, k, i);
    StepKeepsLocks(st, t, k, m);
    StepKeepsEvents(st, t, m);
    StepKeepsMessages(st, t, m, s);
    assert MessageOk(st, m);
    EchoLive(st, k, i);
    StepKeepsTaken(st, t, m, s);
    forall j | 0 <= j < |t.locks|
      ensures EchoOk(t, t.locks[j])
    {
      assert EchoOk(st, st.locks[j]);
      StepKeepsEcho(st, t, k, m, j);
    }
  }

  // ---------------------------------------------------------------- reading echoes

  datatype Delivery = Delivery(name: Option<string>, text: Option<string>)

  /** find_and_remove_message_item, from the i-th echo of session k on */
  function Drain(st: State, k: nat, i: nat, id: int, all: bool, removeAll: bool, filter: bool): (r: (State, Option<Delivery>))
    requires Inv(st) && k < |st.locks|
    ensures Inv(r.0) && Grows(st, r.0)
    decreases |st.locks[k].echo| - i
  {
    if i >= |st.locks[k].echo| then (st, None)
    else
      EchoLive(st, k, i);
      ConsumeKeeps(st, k, i);
      var e, t := st.locks[k].echo[i], Consume(st, k, i);
      if filter && e.id != id then Drain(st, k, i + 1, id, all, removeAll, filter)
      else if !removeAll && (e.id == id || all) then (t, Some(Delivery(st.events[e.id].name, st.heap[e.msg].text)))
      else Drain(t, k, i, id, all, removeAll, filter)
  }

  /** Reading as session k touches no other session's echoes and no registration */
  ghost predicate OnlyReads(st: State, t: State, k: nat) {
    && |t.locks| == |st.locks| && |t.events| == |st.events| && t.next == st.next
    && (forall j :: 0 <= j < |st.locks| ==> t.locks[j].sid == st.locks[j].sid && (j != k ==> t.locks[j] == st.locks[j]))
    && (forall e {:trigger SameReceivers(st.events[e], t.events[e])} :: 0 <= e < |st.events| ==> SameReceivers(st.events[e], t.events[e]))
  }

  predicate SameReceivers(d: Event, e: Event) {
    d.name == e.name && d.receivers == e.receivers && d.number == e.number
  }

  lemma ConsumeOnlyReads(st: State, k: nat, i: nat)
    requires Live(st, k, i)
    ensures OnlyReads(st, Consume(st, k, i), k)
  {
  }

  lemma ReadsTrans(st: State, t: State, u: State, k: nat)
    requires OnlyReads(st, t, k) && OnlyReads(t, u, k)
    ensures OnlyReads(st, u, k)
  {
    forall e | 0 <= e < |st.events|
      ensures SameReceivers(st.events[e], u.events[e])
    {
      assert SameReceivers(st.events[e], t.events[e]) && SameReceivers(t.events[e], u.events[e]);
    }
  }

  lemma {:induction false} DrainOnlyReads(st: State, k: nat, i: nat, id: int, all: bool, removeAll: bool, filter: bool)
    requires Inv(st) && k < |st.locks|
    ensures OnlyReads(st, Drain(st, k, i, id, all, removeAll, filter).0, k)
    decreases |st.locks[k].echo| - i
  {
    if i < |st.locks[k].echo| {
      EchoLive(st, k, i);
      ConsumeKeeps(st, k, i);
      if filter && st.locks[k].echo[i].id != id {
        DrainOnlyReads(st, k, i + 1, id, all, removeAll, filter);
      } else {
        ConsumeOnlyReads(st, k, i);
        if removeAll || (st.locks[k].echo[i].id != id && !all) {
          var t := Consume(st, k, i);
          DrainOnlyReads(t, k, i, id, all, removeAll, filter);
          ReadsTrans(st, t, Drain(t, k, i, id, all, removeAll, filter).0, k);
        }
      }
    }
  }

  /** The echoes of other events than id */
  function Others(es: seq<Echo>, id: int): seq<Echo> {
    if es == [] then [] else (if es[0].id == id then [] else [es[0]]) + Others(es[1..], id)
  }

  lemma OthersKeep(es: seq<Echo>, i: nat, id: int)
    requires i < |es| && es[i].id != id
    ensures es[..i + 1] + Others(es[i + 1..], id) == es[..i] + Others(es[i..], id)
  {
    assert es[i..][1..] == es[i + 1..];
  }

  lemma OthersDrop(es: seq<Echo>, i: nat, id: int)
    requires i < |es| && es[i].id == id
    ensures var u := es[..i] + es[i + 1..]; u[..i] + Others(u[i..], id) == es[..i] + Others(es[i..], id)
  {
    var u := es[..i] + es[i + 1..];
    assert u[..i] == es[..i] && u[i..] == es[i + 1..] == es[i..][1..];
  }

  /** Filtering and removing all takes away exactly the echoes of one event, and delivers nothing */
  lemma {:induction false} DrainRemoves(st: State, k: nat, i: nat, id: int)
    requires Inv(st) && k < |st.locks| && i <= |st.locks[k].echo|
    ensures var r, es := Drain(st, k, i, id, false, true, true), st.locks[k].echo;
      r.0.locks[k].echo == es[..i] + Others(es[i..], id) && r.1.None?
    decreases |st.locks[k].echo| - i
  {
    var es := st.locks[k].echo;
    if i < |es| {
      EchoLive(st, k, i);
      ConsumeKeeps(st, k, i);
      if es[i].id != id {
        DrainRemoves(st, k, i + 1, id);
        OthersKeep(es, i, id);
      } else {
        DrainRemoves(Consume(st, k, i), k, i, id);
        OthersDrop(es, i, id);
      }
    }
  }

  lemma {:induction false} OthersMembers(es: seq<Echo>, id: int)
    ensures forall e :: e in Others(es, id) <==> e in es && e.id != id
  {
    if es != [] {
      OthersMembers(es[1..], id);
      assert es == [es[0]] + es[1..];
    }
  }

  /** The first echo of event id, or the end */
  function FirstOf(es: seq<Echo>, id: int): (f: nat)
    ensures f <= |es| && (forall j :: 0 <= j < f ==> es[j].id != id) && (f < |es| ==> es[f].id == id)
  {
    if es == [] || es[0].id == id then 0 else FirstOf(es[1..], id) + 1
  }

  /** The oldest message of the event, if there is one, with all echoes up to it gone */
  predicate Oldest(st: State, k: nat, id: int, r: (State, Option<Delivery>)) {
    && k < |st.locks| == |r.0.locks|
    && var es := st.locks[k].echo;
    var f := FirstOf(es, id);
    && (f == |es| ==> r.1.None? && r.0.locks[k].echo == [])
    && (f < |es| ==> Live(st, k, f) && r.0.locks[k].echo == es[f + 1..])
    && (f < |es| ==> r.1 == Some(Delivery(st.events[es[f].id].name, st.heap[es[f].msg].text)))
  }

  /** The first echo of event id is the same in t, one place earlier */
  predicate Later(st: State, t: State, k: nat, id: int) {
    && k < |st.locks| == |t.locks| && st.locks[k].echo != [] && t.locks[k].echo == st.locks[k].echo[1..]
    && var es := st.locks[k].echo;
    var f := FirstOf(es, id);
    && f >= 1 && FirstOf(es[1..], id) == f - 1
    && (f < |es| ==> Live(st, k, f) && Live(t, k, f - 1) && t.heap[es[f].msg] == st.heap[es[f].msg])
    && (f < |es| ==> t.events[es[f].id].name == st.events[es[f].id].name)
  }

  /** Throwing away the first echo changes none of the later ones */
  lemma OneLater(st: State, t: State, k: nat, id: int)
    requires Inv(st) && Live(st, k, 0) && t == Consume(st, k, 0)
    requires st.locks[k].echo[0].id != id
    ensures Later(st, t, k, id)
  {
    var es := st.locks[k].echo;
    var f := FirstOf(es, id);
    ConsumeHeap(st, k, 0);
    ConsumeEvents(st, k, 0);
    assert t.locks[k].echo == es[1..];
    if f < |es| {
      EchoLive(st, k, f);
      assert EchoOk(st, st.locks[k]);
      assert es[0].msg != es[f].msg;
      assert EventStep(st.events[es[f].id], t.events[es[f].id], es[0].msg, es[0].msg in t.heap);
    }
  }

  lemma OldestLater(st: State, t: State, k: nat, id: int, r: (State, Option<Delivery>))
    requires Later(st, t, k, id) && Oldest(t, k, id, r)
    ensures Oldest(st, k, id, r)
  {
    var es, us := st.locks[k].echo, t.locks[k].echo;
    var f := FirstOf(es, id);
    assert f < |es| ==> us[f - 1] == es[f] && us[f - 1 + 1..] == es[f + 1..];
  }

  lemma OldestNow(st: State, k: nat, id: int)
    requires Live(st, k, 0) && st.locks[k].echo[0].id == id
    ensures Oldest(st, k, id, (Consume(st, k, 0), Some(Delivery(st.events[id].name, st.heap[st.locks[k].echo[0].msg].text))))
  {
    assert Consume(st, k, 0).locks[k].echo == st.locks[k].echo[1..];
  }

  /** WAITONE takes the oldest message of the event and throws away all older ones of other events */
  lemma {:induction false} DrainOne(st: State, k: nat, id: int)
    requires Inv(st) && k < |st.locks|
    ensures Oldest(st, k, id, Drain(st, k, 0, id, false, false, false))
    decreases |st.locks[k].echo|
  {
    if st.locks[k].echo != [] {
      EchoLive(st, k, 0);
      ConsumeKeeps(st, k, 0);
      var t := Consume(st, k, 0);
      if st.locks[k].echo[0].id != id {
        DrainOne(t, k, id);
        OneLater(st, t, k, id);
        OldestLater(st, t, k, id, Drain(t, k, 0, id, false, false, false));
      } else {
        OldestNow(st, k, id);
      }
    }
  }

  /** WAITANY takes the oldest message there is, and leaves all others in order */
  lemma DrainAny(st: State, k: nat)
    requires Inv(st) && k < |st.locks|
    ensures var r, es := Drain(st, k, 0, -1, true, false, false), st.locks[k].echo;
      && (es == [] ==> r == (st, None))
      && (es != [] ==> Live(st, k, 0) && r.1 == Some(Delivery(st.events[es[0].id].name, st.heap[es[0].msg].text)))
      && (es != [] ==> r.0.locks[k].echo == es[1..] && (es[0].msg, st.locks[k].sid) in r.0.taken)
  {
    if st.locks[k].echo != [] {
      EchoLive(st, k, 0);
    }
  }
}
