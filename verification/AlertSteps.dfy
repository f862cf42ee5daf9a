/** Registration and signalling, and what every run of the alert protocol keeps. */
module AlertSteps {

  import opened Common
  import opened AlertSpec

  // ---------------------------------------------------------------- the tables

  /** First lock of a session, or of nobody; the table's length if there is none */
  function FirstLock(ls: seq<Lock>, s: int): (k: nat)
    ensures k <= |ls| && (k < |ls| ==> ls[k].sid == s) && (forall j :: 0 <= j < k ==> ls[j].sid != s)
  {
    if ls == [] || ls[0].sid == s then 0 else FirstLock(ls[1..], s) + 1
  }

  /** First event of that name, or first free one */
  function FirstEvent(es: seq<Event>, name: Option<string>): (k: nat)
    ensures k <= |es| && (k < |es| ==> es[k].name == name) && (forall j :: 0 <= j < k ==> es[j].name != name)
  {
    if es == [] || es[0].name == name then 0 else FirstEvent(es[1..], name) + 1
  }

  /** First receiver equal to x */
  function FirstReceiver(rs: seq<int>, x: int): (k: nat)
    ensures k <= |rs| && (k < |rs| ==> rs[k] == x) && (forall j :: 0 <= j < k ==> rs[j] != x)
  {
    if rs == [] || rs[0] == x then 0 else FirstReceiver(rs[1..], x) + 1
  }

  // ---------------------------------------------------------------- changing one event

  lemma ReplaceMessages(st: State, e: nat, v: Event)
    requires MessagesOk(st) && e < |st.events| && v.messages == st.events[e].messages
    requires forall m :: m in st.heap && st.heap[m].id == e ==> Used(st.heap[m].receivers) <= Used(v.receivers)
    ensures MessagesOk(st.(events := st.events[e := v]))
  {
    var t := st.(events := st.events[e := v]);
    forall m | m in t.heap
      ensures MessageOk(t, m)
    {
      assert MessageOk(st, m);
    }
  }

  /** Giving an event new receivers is safe if every receiver a message waits for is still one */
  lemma ReplaceEvent(st: State, e: nat, v: Event)
    requires Inv(st) && e < |st.events| && EventOk(st, v) && v.messages == st.events[e].messages
    requires forall d :: 0 <= d < |st.events| && d != e && st.events[d].name == v.name ==> v.name.None?
    requires forall m :: m in st.heap && st.heap[m].id == e ==> Used(st.heap[m].receivers) <= Used(v.receivers)
    ensures Inv(st.(events := st.events[e := v]))
  {
    var t := st.(events := st.events[e := v]);
    ReplaceMessages(st, e, v);
    SameLocks(st, t);
    SameTaken(st, t);
    forall d | 0 <= d < |t.events|
      ensures EventOk(t, t.events[d])
    {
      assert d != e ==> EventOk(st, st.events[d]);
    }
    forall k | 0 <= k < |t.locks|
      ensures EchoOk(t, t.locks[k])
    {
      assert EchoOk(st, st.locks[k]);
    }
  }

  lemma SameTaken(st: State, t: State)
    requires TakenOk(st) && t.heap == st.heap && t.next == st.next && t.taken == st.taken && t.sent == st.sent
    ensures TakenOk(t)
  {
    forall m: nat, s | m < t.next
      ensures Heard(t, m, s)
    {
      assert Heard(st, m, s);
    }
  }

  lemma SameLocks(st: State, t: State)
    requires t.locks == st.locks
    ensures forall s :: HasLock(st, s) ==> HasLock(t, s)
  {
  }

  // ---------------------------------------------------------------- registering

  /** A lock for a session that has none */
  function AddLock(st: State, k: nat, s: int): State
    requires k < |st.locks|
  {
    st.(locks := st.locks[k := Lock(s, [])])
  }

  lemma AddLockKeeps(st: State, k: nat, s: int)
    requires Inv(st) && k < |st.locks| && st.locks[k].sid == NOT_USED && !HasLock(st, s)
    ensures Inv(AddLock(st, k, s)) && HasLock(AddLock(st, k, s), s)
  {
    var t := AddLock(st, k, s);
    assert t.locks[k].sid == s;
    AddLockEvents(st, k, s);
    AddLockEchoes(st, k, s);
    SameTaken(st, t);
    forall m | m in t.heap
      ensures MessageOk(t, m)
    {
      assert MessageOk(st, m);
    }
  }

  lemma AddLockEvents(st: State, k: nat, s: int)
    requires EventsOk(st) && k < |st.locks| && st.locks[k].sid == NOT_USED && !HasLock(st, s)
    ensures EventsOk(AddLock(st, k, s))
  {
    var t := AddLock(st, k, s);
    forall e | 0 <= e < |t.events|
      ensures EventOk(t, t.events[e])
    {
      assert EventOk(st, st.events[e]);
      forall x | x in Used(t.events[e].receivers)
        ensures HasLock(t, x)
      {
        var j :| 0 <= j < |st.locks| && st.locks[j].sid == x;
        assert t.locks[j].sid == x;
      }
    }
  }

  /** Nothing waits for a session without a lock */
  lemma NotWaiting(st: State, s: int, m: nat)
    requires EventsOk(st) && MessagesOk(st) && !HasLock(st, s) && m in st.heap
    ensures s !in Used(st.heap[m].receivers)
  {
    assert MessageOk(st, m);
    assert EventOk(st, st.events[st.heap[m].id]);
  }

  lemma AddLockEchoes(st: State, k: nat, s: int)
    requires Inv(st) && k < |st.locks| && st.locks[k].sid == NOT_USED && !HasLock(st, s)
    ensures EchoesOk(AddLock(st, k, s))
  {
    var t := AddLock(st, k, s);
    forall j | 0 <= j < |t.locks|
      ensures EchoOk(t, t.locks[j])
    {
      assert EchoOk(st, st.locks[j]);
      forall m | m in t.heap && s in Used(t.heap[m].receivers)
        ensures false
      {
        NotWaiting(st, s, m);
      }
    }
  }

  /** The receivers with s among them: an unused entry is taken, or 16 entries are added */
  function AddReceiver(rs: seq<int>, s: int): seq<int> {
    if s in rs then rs
    else if NOT_USED in rs then rs[FirstReceiver(rs, NOT_USED) := s]
    else rs + [s] + seq(15, i => NOT_USED)
  }

  lemma AddReceiverUsed(rs: seq<int>, s: int)
    requires s != NOT_USED && Distinct(rs)
    ensures Used(AddReceiver(rs, s)) == Used(rs) + {s} && Distinct(AddReceiver(rs, s))
  {
    var t := AddReceiver(rs, s);
    if s !in rs {
      var k := FirstReceiver(rs, NOT_USED);
      assert t[k] == s;
      forall x | x in Used(rs)
        ensures x in Used(t)
      {
        var j :| 0 <= j < |rs| && rs[j] == x;
        assert t[j] == x;
      }
    }
  }

  lemma {:induction false} AllUsed(rs: seq<int>)
    requires Distinct(rs) && NOT_USED !in rs
    ensures |Used(rs)| == |rs|
  {
    if rs != [] {
      AllUsed(rs[1..]);
      assert rs == [rs[0]] + rs[1..];
      assert Used(rs) == Used(rs[1..]) + {rs[0]} && rs[0] !in Used(rs[1..]);
    }
  }

  /** There is room for the session in the array of receivers */
  predicate Room(rs: seq<int>, s: int) {
    s in rs || |Used(rs)| < MAX_RECEIVERS
  }

  /** The length of the array fits its unsigned char exactly when there is room; otherwise it wraps to 0 */
  lemma RoomExact(rs: seq<int>, s: int)
    requires Distinct(rs) && |rs| <= MAX_RECEIVERS && |rs| % 16 == 0 && s != NOT_USED
    ensures Room(rs, s) <==> |AddReceiver(rs, s)| < 256
    ensures Room(rs, s) ==> |AddReceiver(rs, s)| <= MAX_RECEIVERS && |AddReceiver(rs, s)| % 16 == 0
    ensures !Room(rs, s) ==> |AddReceiver(rs, s)| % 256 == 0
  {
    if NOT_USED !in rs {
      AllUsed(rs);
    } else {
      UsedShort(rs);
    }
  }

  lemma {:induction false} UsedShort(rs: seq<int>)
    ensures |Used(rs)| <= |rs|
    ensures NOT_USED in rs ==> |Used(rs)| < |rs|
  {
    if rs != [] {
      UsedShort(rs[1..]);
      assert rs == [rs[0]] + rs[1..];
      assert rs[0] == NOT_USED ==> Used(rs) == Used(rs[1..]);
      assert rs[0] != NOT_USED ==> Used(rs) == Used(rs[1..]) + {rs[0]};
    }
  }

  datatype Status = Done | NoLock | NoEvent

  /** find_lock with create */
  function WithLock(st: State, s: int): Option<State> {
    if FirstLock(st.locks, s) < |st.locks| then Some(st)
    else var k := FirstLock(st.locks, NOT_USED); if k < |st.locks| then Some(AddLock(st, k, s)) else None
  }

  /** find_event with create: the event, and the event record it starts from */
  function EventFor(es: seq<Event>, name: string): Option<(nat, Event)> {
    var e := FirstEvent(es, Some(name));
    if e < |es| then Some((e, es[e]))
    else var f := FirstEvent(es, None); if f < |es| then Some((f, Event(Some(name), [], 0, []))) else None
  }

  /** register_event */
  function Register(st: State, name: string, s: int): (State, Status) {
    match WithLock(st, s)
    case None => (st, NoLock)
    case Some(t) =>
      match EventFor(t.events, name)
      case None => (t, NoEvent)
      case Some((e, v)) =>
        if e < |t.events|
        then (t.(events := t.events[e := Added(v, s)]), Done)
        else (t, NoEvent)
  }

  /** An event with the receiver added */
  function Added(v: Event, s: int): Event {
    v.(receivers := AddReceiver(v.receivers, s), number := if s in v.receivers then v.number else v.number + 1)
  }

  lemma WithLockKeeps(st: State, s: int)
    requires Inv(st) && s != NOT_USED && WithLock(st, s).Some?
    ensures Inv(WithLock(st, s).value) && HasLock(WithLock(st, s).value, s)
    ensures WithLock(st, s).value.events == st.events
  {
    var k := FirstLock(st.locks, s);
    if k < |st.locks| {
      assert st.locks[k].sid == s;
    } else {
      AddLockKeeps(st, FirstLock(st.locks, NOT_USED), s);
    }
  }

  lemma EventForOk(st: State, name: string)
    requires Inv(st) && EventFor(st.events, name).Some?
    ensures var (e, v) := EventFor(st.events, name).value;
      && e < |st.events| && v.name == Some(name) && v.messages == st.events[e].messages && Distinct(v.receivers)
      && NoRepeat(v.messages) && v.number == |Used(v.receivers)| && Used(v.receivers) == Used(st.events[e].receivers)
      && |v.receivers| <= MAX_RECEIVERS && |v.receivers| % 16 == 0
      && (forall s :: s in Used(v.receivers) ==> HasLock(st, s))
      && (forall d :: 0 <= d < |st.events| && d != e ==> st.events[d].name != v.name)
  {
    var (e, v) := EventFor(st.events, name).value;
    assert EventOk(st, st.events[e]);
  }

  /** What registering needs: fewer than 240 receivers, or the session is one already */
  predicate CanRegister(es: seq<Event>, name: string, s: int) {
    var e := FirstEvent(es, Some(name));
    e < |es| ==> Room(es[e].receivers, s)
  }

  lemma RegisterKeeps(st: State, name: string, s: int)
    requires Inv(st) && s != NOT_USED && CanRegister(st.events, name, s)
    ensures Inv(Register(st, name, s).0)
  {
    if WithLock(st, s).Some? {
      WithLockKeeps(st, s);
      var t := WithLock(st, s).value;
      if EventFor(t.events, name).Some? {
        RegisterEvent(t, name, s);
      }
    }
  }

  lemma RegisterEvent(t: State, name: string, s: int)
    requires Inv(t) && s != NOT_USED && HasLock(t, s) && EventFor(t.events, name).Some? && CanRegister(t.events, name, s)
    ensures var (e, v) := EventFor(t.events, name).value; (e < |t.events| && Inv(t.(events := t.events[e := Added(v, s)])))
  {
    EventForOk(t, name);
    var (e, v) := EventFor(t.events, name).value;
    AddReceiverUsed(v.receivers, s);
    RoomExact(v.receivers, s);
    forall m | m in t.heap && t.heap[m].id == e
      ensures Used(t.heap[m].receivers) <= Used(Added(v, s).receivers)
    {
      assert MessageOk(t, m);
    }
    ReplaceEvent(t, e, Added(v, s));
  }

  // ---------------------------------------------------------------- unregistering

  /** unregister_event; the slot of an event without receivers is freed */
  function Unregister(st: State, e: nat, s: int): State
    requires e < |st.events|
  {
    var v := st.events[e];
    if v.number == 0 then st
    else
      var w := if s in v.receivers then v.(receivers := Without(v.receivers, s), number := v.number - 1) else v;
      st.(events := st.events[e := if w.number == 0 then w.(name := None, receivers := []) else w])
  }

  /** Safe once no message of the event waits for the session */
  lemma UnregisterKeeps(st: State, e: nat, s: int)
    requires Inv(st) && e < |st.events| && s != NOT_USED
    requires forall m :: m in st.heap && st.heap[m].id == e ==> s !in Used(st.heap[m].receivers)
    ensures Inv(Unregister(st, e, s))
  {
    var v := st.events[e];
    assert EventOk(st, v);
    if s in v.receivers {
      WithoutUsed(v.receivers, s);
      var w := v.(receivers := Without(v.receivers, s), number := v.number - 1);
      StillReceivers(st, e, s, w);
      ReplaceOrFree(st, e, w);
    } else {
      assert st.events[e := v] == st.events;
    }
  }

  lemma ReplaceOrFree(st: State, e: nat, w: Event)
    requires Inv(st) && e < |st.events| && w.messages == st.events[e].messages && w.name == st.events[e].name
    requires w.name.Some? && w.number == |Used(w.receivers)| && Distinct(w.receivers)
    requires |w.receivers| == |st.events[e].receivers| && Used(w.receivers) <= Used(st.events[e].receivers)
    requires forall m :: m in st.heap && st.heap[m].id == e ==> Used(st.heap[m].receivers) <= Used(w.receivers)
    ensures Inv(st.(events := st.events[e := if w.number == 0 then w.(name := None, receivers := []) else w]))
  {
    assert EventOk(st, st.events[e]);
    if w.number == 0 {
      NothingLinked(st, e, w);
      ReplaceEvent(st, e, w.(name := None, receivers := []));
    } else {
      ReplaceEvent(st, e, w);
    }
  }

  lemma StillReceivers(st: State, e: nat, s: int, w: Event)
    requires Inv(st) && e < |st.events| && Used(w.receivers) == Used(st.events[e].receivers) - {s}
    requires forall m :: m in st.heap && st.heap[m].id == e ==> s !in Used(st.heap[m].receivers)
    ensures forall m :: m in st.heap && st.heap[m].id == e ==> Used(st.heap[m].receivers) <= Used(w.receivers)
  {
    forall m | m in st.heap && st.heap[m].id == e
      ensures Used(st.heap[m].receivers) <= Used(w.receivers)
    {
      assert MessageOk(st, m);
    }
  }

  lemma Awaited(st: State, m: nat)
    requires Inv(st) && m in st.heap
    ensures Used(st.heap[m].receivers) != {}
  {
    assert MessageOk(st, m);
  }

  lemma NothingLinked(st: State, e: nat, w: Event)
    requires Inv(st) && e < |st.events| && Used(w.receivers) == {}
    requires forall m :: m in st.heap && st.heap[m].id == e ==> Used(st.heap[m].receivers) <= Used(w.receivers)
    ensures st.events[e].messages == []
  {
    if st.events[e].messages != [] {
      var m := st.events[e].messages[0];
      assert m in st.events[e].messages;
      Awaited(st, m);
    }
  }

  // ---------------------------------------------------------------- signalling

  /** The registered sessions, in table order */
  function Compact(rs: seq<int>): seq<int> {
    if rs == [] then [] else (if rs[0] == NOT_USED then [] else [rs[0]]) + Compact(rs[1..])
  }

  lemma {:induction false} CompactUsed(rs: seq<int>)
    requires Distinct(rs)
    ensures Used(Compact(rs)) == Used(rs) && Distinct(Compact(rs)) && NOT_USED !in Compact(rs)
  {
    if rs != [] {
      CompactUsed(rs[1..]);
      assert rs == [rs[0]] + rs[1..];
      var c := Compact(rs[1..]);
      if rs[0] != NOT_USED {
        assert rs[0] !in Used(rs[1..]);
        assert rs[0] !in c;
        assert Compact(rs) == [rs[0]] + c;
        assert Used(rs) == Used(rs[1..]) + {rs[0]} && Used([rs[0]] + c) == Used(c) + {rs[0]};
      } else {
        assert Compact(rs) == c;
      }
    }
  }

  /** A lock after one more message for the sessions rs */
  function Notified(l: Lock, rs: set<int>, e: Echo): Lock {
    if l.sid in rs then l.(echo := l.echo + [e]) else l
  }

  /** Some waiting message of the event has that text */
  predicate Queued(st: State, e: nat, text: Option<string>)
    requires e < |st.events|
  {
    exists m :: m in st.events[e].messages && m in st.heap && st.heap[m].text == text
  }

  /** A new message for all receivers of event e */
  function Post(st: State, e: nat, text: Option<string>): State
    requires e < |st.events|
  {
    var v := st.events[e];
    State(st.events[e := v.(messages := v.messages + [st.next])],
          seq(|st.locks|, k requires 0 <= k < |st.locks| => Notified(st.locks[k], Used(v.receivers), Echo(st.next, e))),
          st.heap[st.next := Message(text, e, Compact(v.receivers))], st.next + 1, st.taken,
          st.sent[st.next := Used(v.receivers)])
  }

  /** create_message */
  function Signal(st: State, name: string, text: Option<string>): State {
    var e := FirstEvent(st.events, Some(name));
    if e < |st.events| && st.events[e].number > 0 && !Queued(st, e, text) then Post(st, e, text) else st
  }

  lemma PostEvents(st: State, e: nat, text: Option<string>)
    requires Inv(st) && e < |st.events| && st.events[e].name.Some?
    ensures LocksOk(Post(st, e, text)) && EventsOk(Post(st, e, text))
  {
    var t := Post(st, e, text);
    assert forall k :: 0 <= k < |t.locks| ==> t.locks[k].sid == st.locks[k].sid;
    forall d | 0 <= d < |t.events|
      ensures EventOk(t, t.events[d])
    {
      assert EventOk(st, st.events[d]);
      PostEvent(st, e, text, d);
    }
    UsedHasNoFree(st, e);
  }

  lemma UsedHasNoFree(st: State, e: nat)
    requires e < |st.events|
    ensures NOT_USED !in Used(st.events[e].receivers)
  {
  }

  lemma FreshAddress(st: State, e: nat)
    requires Inv(st) && e < |st.events|
    ensures st.next !in st.heap && st.next !in st.events[e].messages
  {
    forall m | m in st.heap
      ensures m < st.next
    {
      assert MessageOk(st, m);
    }
  }

  lemma PostEvent(st: State, e: nat, text: Option<string>, d: nat)
    requires Inv(st) && e < |st.events| && st.events[e].name.Some? && d < |st.events|
    ensures EventOk(Post(st, e, text), Post(st, e, text).events[d])
  {
    var t := Post(st, e, text);
    assert EventOk(st, st.events[d]);
    FreshAddress(st, e);
    forall s | s in Used(t.events[d].receivers)
      ensures HasLock(t, s)
    {
      var k :| 0 <= k < |st.locks| && st.locks[k].sid == s;
      assert t.locks[k].sid == s;
    }
  }

  lemma PostMessages(st: State, e: nat, text: Option<string>)
    requires Inv(st) && e < |st.events| && st.events[e].name.Some?
    ensures MessagesOk(Post(st, e, text))
  {
    var t := Post(st, e, text);
    FreshAddress(st, e);
    assert EventOk(st, st.events[e]);
    CompactUsed(st.events[e].receivers);
    forall m | m in t.heap
      ensures MessageOk(t, m)
    {
      assert m != st.next ==> MessageOk(st, m);
      assert t.events[e].messages[|st.events[e].messages|] == st.next;
    }
  }

  lemma PostTaken(st: State, e: nat, text: Option<string>)
    requires Inv(st) && e < |st.events|
    ensures TakenOk(Post(st, e, text))
  {
    var t := Post(st, e, text);
    FreshAddress(st, e);
    assert EventOk(st, st.events[e]);
    CompactUsed(st.events[e].receivers);
    forall m: nat, s | m < t.next
      ensures Heard(t, m, s)
    {
      assert m < st.next ==> Heard(st, m, s);
    }
  }

  lemma PostTexts(st: State, e: nat, text: Option<string>)
    requires Inv(st) && e < |st.events| && !Queued(st, e, text)
    ensures TextsOk(Post(st, e, text))
  {
    var t := Post(st, e, text);
    FreshAddress(st, e);
    forall m, x | m in t.heap && x in t.heap
      ensures Differ(t.heap, m, x)
    {
      if m != st.next && x != st.next {
        assert Differ(st.heap, m, x);
      } else if m != st.next {
        assert MessageOk(st, m);
      } else if x != st.next {
        assert MessageOk(st, x);
      }
    }
  }

  lemma PostEcho(st: State, e: nat, text: Option<string>, k: nat)
    requires Inv(st) && e < |st.events| && st.events[e].name.Some? && k < |st.locks|
    ensures EchoOk(Post(st, e, text), Post(st, e, text).locks[k])
  {
    var t, l := Post(st, e, text), st.locks[k];
    var u := t.locks[k];
    FreshAddress(st, e);
    assert EventOk(st, st.events[e]);
    assert EchoOk(st, l);
    CompactUsed(st.events[e].receivers);
    assert forall x :: x in l.echo ==> x.msg in st.heap;
    assert l.sid in Used(st.events[e].receivers) ==> u.echo[|l.echo|] == Echo(st.next, e);
    forall m | m in t.heap && u.sid in Used(t.heap[m].receivers)
      ensures m in Echoed(u)
    {
      if m != st.next {
        assert m in Echoed(l);
        var x :| x in l.echo && x.msg == m;
        assert x in u.echo;
      }
    }
  }

  lemma PostKeeps(st: State, e: nat, text: Option<string>)
    requires Inv(st) && e < |st.events| && st.events[e].name.Some? && !Queued(st, e, text)
    ensures Inv(Post(st, e, text))
  {
    PostEvents(st, e, text);
    PostMessages(st, e, text);
    PostTaken(st, e, text);
    PostTexts(st, e, text);
    forall k | 0 <= k < |st.locks|
      ensures EchoOk(Post(st, e, text), Post(st, e, text).locks[k])
    {
      PostEcho(st, e, text, k);
    }
  }

  lemma SignalKeeps(st: State, name: string, text: Option<string>)
    requires Inv(st)
    ensures Inv(Signal(st, name, text))
  {
    var e := FirstEvent(st.events, Some(name));
    if e < |st.events| && !Queued(st, e, text) {
      PostKeeps(st, e, text);
    }
  }

  // ---------------------------------------------------------------- runs

  datatype Action =
    | Registers(name: string, s: nat)
    | Removes(name: string, s: nat)
    | RemovesAll(s: nat)
    | WaitsAny(s: nat)
    | WaitsOne(name: string, s: nat)
    | Signals(name: string, text: Option<string>)

  /** find_and_remove_message_item for a session, which may have no lock */
  function Read(st: State, s: int, id: int, all: bool, removeAll: bool, filter: bool): (r: (State, Option<Delivery>))
    requires Inv(st)
    ensures Inv(r.0) && Grows(st, r.0) && |r.0.events| == |st.events|
  {
    var k := FirstLock(st.locks, s);
    if k == |st.locks| then (st, None) else Drain(st, k, 0, id, all, removeAll, filter)
  }

  /** Reading away all messages of an event leaves none that waits for the session */
  lemma ReadAway(st: State, s: int, e: nat)
    requires Inv(st) && e < |st.events| && s != NOT_USED
    ensures var t := Read(st, s, e, false, true, true).0;
      forall m :: m in t.heap && t.heap[m].id == e ==> s !in Used(t.heap[m].receivers)
  {
    var k, t := FirstLock(st.locks, s), Read(st, s, e, false, true, true).0;
    forall m | m in t.heap && t.heap[m].id == e
      ensures s !in Used(t.heap[m].receivers)
    {
      if k == |st.locks| {
        NotWaiting(st, s, m);
      } else {
        DrainRemoves(st, k, 0, e);
        DrainOnlyReads(st, k, 0, e, false, true, true);
        OthersMembers(st.locks[k].echo[0..], e);
        NoEcho(t, k, m, e);
      }
    }
  }

  lemma NoEcho(t: State, k: nat, m: nat, e: nat)
    requires Inv(t) && k < |t.locks| && m in t.heap && t.heap[m].id == e
    requires forall x :: x in t.locks[k].echo ==> x.id != e
    ensures t.locks[k].sid !in Used(t.heap[m].receivers)
  {
    assert EchoOk(t, t.locks[k]);
  }

  /** dbms_alert_remove of one event */
  function Remove(st: State, e: nat, s: int): (t: State)
    requires Inv(st) && e < |st.events| && s != NOT_USED
    ensures Inv(t) && Grows(st, t) && |t.events| == |st.events|
  {
    ReadAway(st, s, e);
    var u := Read(st, s, e, false, true, true).0;
    UnregisterKeeps(u, e, s);
    Unregister(u, e, s)
  }

  /** dbms_alert_removeall, from event e on */
  function RemoveFrom(st: State, e: nat, s: int): (t: State)
    requires Inv(st) && s != NOT_USED
    ensures Inv(t) && Grows(st, t)
    decreases |st.events| - e
  {
    if e >= |st.events| then st
    else RemoveFrom(if st.events[e].name.Some? then Remove(st, e, s) else st, e + 1, s)
  }

  /** The 240-receiver limit, which only registering can meet */
  predicate Allowed(st: State, a: Action) {
    a.Registers? ==> CanRegister(st.events, a.name, a.s)
  }

  function Next(st: State, a: Action): (t: State)
    requires Inv(st) && Allowed(st, a)
    ensures Inv(t) && Grows(st, t)
  {
    match a
    case Registers(name, s) => RegisterKeeps(st, name, s); Register(st, name, s).0
    case Removes(name, s) => (var e := FirstEvent(st.events, Some(name)); if e < |st.events| then Remove(st, e, s) else st)
    case RemovesAll(s) => RemoveFrom(st, 0, s)
    case WaitsAny(s) => Read(st, s, -1, true, false, false).0
    case WaitsOne(name, s) =>
      (var e := FirstEvent(st.events, Some(name)); if e < |st.events| then Read(st, s, e, false, false, false).0 else st)
    case Signals(name, text) => SignalKeeps(st, name, text); Signal(st, name, text)
  }

  /** t is reached from st by these actions */
  ghost predicate Run(st: State, acts: seq<Action>, t: State)
    decreases |acts|
  {
    if acts == [] then t == st else Inv(st) && Allowed(st, acts[0]) && Run(Next(st, acts[0]), acts[1..], t)
  }

  function Initial(): State {
    State(seq(MAX_EVENTS, i => Event(None, [], 0, [])), seq(MAX_LOCKS, i => Lock(NOT_USED, [])), map[], 0, {}, map[])
  }

  lemma InitialOk()
    ensures Inv(Initial())
  {
    var st := Initial();
    forall e | 0 <= e < |st.events|
      ensures EventOk(st, st.events[e])
    {
      assert Used(st.events[e].receivers) == {};
    }
  }

  /** Every reachable state keeps the invariant, and what was consumed stays consumed */
  lemma {:induction false} RunKeeps(st: State, acts: seq<Action>, t: State)
    requires Inv(st) && Run(st, acts, t)
    ensures Inv(t) && Grows(st, t)
    decreases |acts|
  {
    if acts != [] {
      RunKeeps(Next(st, acts[0]), acts[1..], t);
    }
  }

  /**
   In every reachable state: a session has an echo for a message iff it is an
   unconsumed receiver of it; a message is linked in its event iff some receiver
   remains, and then that event is not a freed one.
   */
  lemma Reachable(acts: seq<Action>, t: State, k: nat, m: nat)
    requires Run(Initial(), acts, t) && k < MAX_LOCKS
    ensures Inv(t)
    ensures m in Echoed(t.locks[k]) <==> m in t.heap && t.locks[k].sid in Used(t.heap[m].receivers)
    ensures m in t.heap ==> Used(t.heap[m].receivers) != {} && t.heap[m].id < MAX_EVENTS
    ensures m in t.heap ==> m in t.events[t.heap[m].id].messages && t.events[t.heap[m].id].name.Some?
    ensures m !in t.heap ==> forall e :: 0 <= e < MAX_EVENTS ==> m !in t.events[e].messages
  {
    InitialOk();
    RunKeeps(Initial(), acts, t);
    assert EchoOk(t, t.locks[k]);
    if m in t.heap {
      assert MessageOk(t, m);
      assert EventOk(t, t.events[t.heap[m].id]);
    }
  }

  /**
   A message reaches exactly those registered when it was signalled: each of them
   has consumed it or waits for it, and not both.
   */
  lemma ReachesEachOnce(st: State, name: string, text: Option<string>, acts: seq<Action>, t: State, s: int)
    requires Inv(st) && Run(Signal(st, name, text), acts, t)
    requires Signal(st, name, text) != st
    ensures var e := FirstEvent(st.events, Some(name));
      && e < |st.events| && Inv(t)
      && (s in Used(st.events[e].receivers) <==> (st.next, s) in t.taken || Waits(t, st.next, s))
      && !((st.next, s) in t.taken && Waits(t, st.next, s))
  {
    SignalKeeps(st, name, text);
    var u := Signal(st, name, text);
    RunKeeps(u, acts, t);
    assert st.next in u.sent;
    assert Heard(t, st.next, s);
  }

  /** A message once consumed by a session is never offered to it again, whatever happens next */
  lemma AtMostOnce(st: State, acts: seq<Action>, t: State, s: int, m: nat, j: nat)
    requires Inv(st) && Run(st, acts, t) && (m, s) in st.taken && j < |t.locks| && t.locks[j].sid == s
    ensures m !in Echoed(t.locks[j])
  {
    RunKeeps(st, acts, t);
    assert EchoOk(t, t.locks[j]);
    assert Heard(t, m, s);
  }

  // ---------------------------------------------------------------- who is registered

  /** The sessions registered for an event */
  function Registered(st: State, name: string): set<int> {
    var e := FirstEvent(st.events, Some(name)); if e < |st.events| then Used(st.events[e].receivers) else {}
  }

  lemma RegisteredAt(st: State, e: nat, name: string)
    requires Inv(st) && e < |st.events| && st.events[e].name == Some(name)
    ensures FirstEvent(st.events, Some(name)) == e && Registered(st, name) == Used(st.events[e].receivers)
  {
  }

  /** Changing one slot changes the registrations of the names it bears, before and after, and no others */
  lemma RegisteredElsewhere(st: State, t: State, e: nat, name: string)
    requires Inv(st) && Inv(t) && e < |st.events| == |t.events|
    requires forall d :: 0 <= d < |st.events| && d != e ==> SameReceivers(st.events[d], t.events[d])
    requires st.events[e].name != Some(name) && t.events[e].name != Some(name)
    ensures Registered(t, name) == Registered(st, name)
  {
    SameNames(st.events, t.events, e, name);
  }

  lemma SameNames(es: seq<Event>, fs: seq<Event>, e: nat, name: string)
    requires e < |es| == |fs| && (forall d :: 0 <= d < |es| && d != e ==> SameReceivers(es[d], fs[d]))
    requires es[e].name != Some(name) && fs[e].name != Some(name)
    ensures var f := FirstEvent(es, Some(name));
      FirstEvent(fs, Some(name)) == f && (f < |es| ==> fs[f].receivers == es[f].receivers)
  {
    forall d | 0 <= d < |es|
      ensures es[d].name == Some(name) <==> fs[d].name == Some(name)
      ensures d != e ==> fs[d].receivers == es[d].receivers
    {
      assert d != e ==> SameReceivers(es[d], fs[d]);
    }
  }

  /** A successful registration adds the session to that event; a refused one changes no registration */
  lemma RegisterAdds(st: State, name: string, s: int, other: string)
    requires Inv(st) && s != NOT_USED && CanRegister(st.events, name, s)
    ensures var (t, status) := Register(st, name, s);
      Registered(t, other) == if status.Done? && other == name then Registered(st, name) + {s} else Registered(st, other)
  {
    RegisterKeeps(st, name, s);
    if WithLock(st, s).Some? {
      WithLockKeeps(st, s);
      var u, t := WithLock(st, s).value, Register(st, name, s).0;
      if EventFor(u.events, name).Some? {
        EventForOk(u, name);
        var (e, v) := EventFor(u.events, name).value;
        AddReceiverUsed(v.receivers, s);
        RegisterNames(u, t, e, v, name, s, other);
      }
    }
  }

  lemma RegisterNames(u: State, t: State, e: nat, v: Event, name: string, s: int, other: string)
    requires Inv(u) && Inv(t) && e < |u.events| && EventFor(u.events, name) == Some((e, v)) && v.name == Some(name)
    requires t.events == u.events[e := Added(v, s)] && Used(Added(v, s).receivers) == Used(v.receivers) + {s}
    ensures Registered(t, other) == if other == name then Registered(u, name) + {s} else Registered(u, other)
  {
    if other == name {
      RegisteredAt(t, e, name);
      if u.events[e].name == Some(name) {
        RegisteredAt(u, e, name);
      }
    } else {
      RegisteredElsewhere(u, t, e, other);
    }
  }

  /** Removing takes the session off that event and no other session and no other event */
  lemma RemoveDrops(st: State, e: nat, s: int, name: string)
    requires Inv(st) && e < |st.events| && s != NOT_USED
    ensures Registered(Remove(st, e, s), name) == if st.events[e].name == Some(name) then Registered(st, name) - {s} else Registered(st, name)
  {
    ReadAway(st, s, e);
    var u := Read(st, s, e, false, true, true).0;
    ReadKeepsNames(st, s, e, false, true, true, name);
    UnregisterKeeps(u, e, s);
    UnregisterDrops(u, e, s, name);
  }

  /** The slot itself: without the session, or freed when nobody else is left */
  lemma UnregisterSlot(u: State, e: nat, s: int)
    requires Inv(u) && e < |u.events| && s != NOT_USED
    ensures var v, w := u.events[e], Unregister(u, e, s).events[e];
      && (w.name == v.name || (w.name.None? && Used(v.receivers) <= {s}))
      && (w.name == v.name ==> Used(w.receivers) == Used(v.receivers) - {s})
    ensures forall d :: 0 <= d < |u.events| && d != e ==> Unregister(u, e, s).events[d] == u.events[d]
  {
    var v := u.events[e];
    assert EventOk(u, v);
    WithoutUsed(v.receivers, s);
    if s in v.receivers {
      assert s in Used(v.receivers);
      assert |Used(v.receivers) - {s}| == |Used(v.receivers)| - 1;
    }
  }

  lemma UnregisterDrops(u: State, e: nat, s: int, name: string)
    requires Inv(u) && e < |u.events| && s != NOT_USED && Inv(Unregister(u, e, s))
    ensures Registered(Unregister(u, e, s), name) == if u.events[e].name == Some(name) then Registered(u, name) - {s} else Registered(u, name)
  {
    var t, v := Unregister(u, e, s), u.events[e];
    UnregisterSlot(u, e, s);
    if v.name == Some(name) {
      RegisteredAt(u, e, name);
      if t.events[e].name == Some(name) {
        RegisteredAt(t, e, name);
      } else {
        NoSuchName(u, t, e, name);
      }
    } else {
      RegisteredElsewhere(u, t, e, name);
    }
  }

  lemma NoSuchName(u: State, t: State, e: nat, name: string)
    requires Inv(u) && e < |u.events| == |t.events| && u.events[e].name == Some(name) && t.events[e].name != Some(name)
    requires forall d :: 0 <= d < |u.events| && d != e ==> t.events[d] == u.events[d]
    ensures Registered(t, name) == {}
  {
    forall d | 0 <= d < |t.events|
      ensures t.events[d].name != Some(name)
    {
      assert d != e ==> u.events[d].name != u.events[e].name;
    }
  }

  /** Reading changes no registration */
  lemma ReadKeepsNames(st: State, s: int, id: int, all: bool, removeAll: bool, filter: bool, name: string)
    requires Inv(st)
    ensures var t := Read(st, s, id, all, removeAll, filter).0;
      && |t.events| == |st.events| && Registered(t, name) == Registered(st, name)
      && forall e :: 0 <= e < |st.events| ==> t.events[e].name == st.events[e].name
  {
    var k, t := FirstLock(st.locks, s), Read(st, s, id, all, removeAll, filter).0;
    if k < |st.locks| {
      DrainOnlyReads(st, k, 0, id, all, removeAll, filter);
      forall e | 0 <= e < |st.events|
        ensures t.events[e].name == st.events[e].name && t.events[e].receivers == st.events[e].receivers
      {
        assert SameReceivers(st.events[e], t.events[e]);
      }
      var f, g := FirstEvent(st.events, Some(name)), FirstEvent(t.events, Some(name));
      assert f == g;
    }
  }
}
