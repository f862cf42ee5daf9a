/**
 The alert tables as the code keeps them: an array of events, an array of locks,
 and messages in shared memory. Each operation is proved to take the step that
 AlertSteps gives it.
 */
module Alert {

  import opened Common
  import opened AlertSpec
  import opened AlertSteps
  import opened AlertLaws

  class Tables {
    const events: array<Event>
    const locks: array<Lock>
    var heap: map<nat, Message>
    var next: nat
    ghost var taken: set<(nat, int)>
    ghost var sent: map<nat, set<int>>

    ghost function View(): State
      reads this, events, locks
    {
      State(events[..], locks[..], heap, next, taken, sent)
    }

    ghost predicate Valid()
      reads this, events, locks
    {
      Inv(View())
    }

    constructor ()
      ensures Valid() && View() == Initial() && fresh(events) && fresh(locks)
    {
      events := new Event[MAX_EVENTS](i => Event(None, [], 0, []));
      locks := new Lock[MAX_LOCKS](i => Lock(NOT_USED, []));
      heap, next, taken, sent := map[], 0, {}, map[];
      new;
      InitialOk();
      assert events[..] == Initial().events && locks[..] == Initial().locks;
    }

    /** find_lock without create */
    method FindLock(sid: int) returns (k: nat)
      ensures k == FirstLock(locks[..], sid)
    {
      k := 0;
      while k < locks.Length && locks[k].sid != sid
        invariant k <= locks.Length && forall j :: 0 <= j < k ==> locks[j].sid != sid
      {
        k := k + 1;
      }
    }

    /** find_lock with create: the first unused lock is remembered on the way */
    method MakeLock(sid: int) returns (ok: bool)
      modifies locks
      ensures ok <==> WithLock(old(View()), sid).Some?
      ensures View() == if ok then WithLock(old(View()), sid).value else old(View())
    {
      var free: int := -1;
      var i := 0;
      while i < locks.Length && locks[i].sid != sid
        invariant i <= locks.Length && forall j :: 0 <= j < i ==> locks[j].sid != sid
        invariant -1 <= free < i
        invariant forall j :: 0 <= j < (if free == -1 then i else free) ==> locks[j].sid != NOT_USED
        invariant free != -1 ==> locks[free].sid == NOT_USED
      {
        if locks[i].sid == NOT_USED && free == -1 {
          free := i;
        }
        i := i + 1;
      }
      assert i == FirstLock(locks[..], sid);
      ok := true;
      if i == locks.Length {
        if free == -1 {
          ok := false;
        } else {
          assert free == FirstLock(locks[..], NOT_USED);
          locks[free] := Lock(sid, []);
          assert locks[..] == old(locks[..])[free := Lock(sid, [])];
        }
      }
    }

    /** find_event without create */
    method FindEvent(name: Option<string>) returns (e: nat)
      ensures e == FirstEvent(events[..], name)
    {
      e := 0;
      while e < events.Length && events[e].name != name
        invariant e <= events.Length && forall j :: 0 <= j < e ==> events[j].name != name
      {
        e := e + 1;
      }
    }

    /** find_event with create, which clears a free slot for the event */
    method MakeEvent(name: string) returns (e: nat)
      modifies events
      ensures e <= events.Length && (e < events.Length <==> EventFor(old(events[..]), name).Some?)
      ensures events[..] == if e < events.Length then old(events[..])[e := EventFor(old(events[..]), name).value.1] else old(events[..])
      ensures e < events.Length ==> e == EventFor(old(events[..]), name).value.0
    {
      e := FindEvent(Some(name));
      if e == events.Length {
        e := FindEvent(None);
        if e < events.Length {
          events[e] := Event(Some(name), [], 0, []);
        }
      }
    }

    /** The array of receivers grown by 16 unused entries */
    static method Grow(rs: seq<int>) returns (grown: array<int>)
      ensures fresh(grown) && grown[..] == rs + seq(16, i => NOT_USED)
    {
      grown := new int[|rs| + 16];
      var i := 0;
      while i < |rs| + 16
        invariant i <= |rs| + 16
        invariant forall j :: 0 <= j < i ==> grown[j] == if j < |rs| then rs[j] else NOT_USED
      {
        grown[i] := if i < |rs| then rs[i] else NOT_USED;
        i := i + 1;
      }
    }

    /** The receivers with sid among them, and whether it is new there */
    static method Enter(rs: seq<int>, sid: int) returns (entered: seq<int>, new_: bool)
      requires sid != NOT_USED
      ensures entered == AddReceiver(rs, sid) && (new_ <==> sid !in rs)
    {
      var free: int := -1;
      var i := 0;
      while i < |rs|
        invariant i <= |rs| && sid !in rs[..i] && -1 <= free < i
        invariant forall j :: 0 <= j < (if free == -1 then i else free) ==> rs[j] != NOT_USED
        invariant free != -1 ==> rs[free] == NOT_USED
      {
        if rs[i] == sid {
          return rs, false;
        }
        if rs[i] == NOT_USED && free == -1 {
          free := i;
        }
        i := i + 1;
      }
      assert sid !in rs by {
        assert rs[..|rs|] == rs;
      }
      if free == -1 {
        var grown := Grow(rs);
        grown[|rs|] := sid;
        entered := grown[..];
        assert entered == rs + [sid] + seq(15, i => NOT_USED);
      } else {
        assert free == FirstReceiver(rs, NOT_USED);
        entered := rs[free := sid];
      }
      new_ := true;
    }

    /** register_event */
    method RegisterEvent(name: string, sid: int) returns (status: Status)
      requires Valid() && sid != NOT_USED && CanRegister(events[..], name, sid)
      modifies this, events, locks
      ensures Valid() && (View(), status) == Register(old(View()), name, sid)
      ensures status.NoLock? <==> !LockFor(old(View()), sid)
      ensures status.NoEvent? <==> LockFor(old(View()), sid) && !SlotFor(old(View()), name)
    {
      RegisterStatus(View(), name, sid);
      status := Enroll(name, sid);
    }

    method Enroll(name: string, sid: int) returns (status: Status)
      requires Valid() && sid != NOT_USED && CanRegister(events[..], name, sid)
      modifies this, events, locks
      ensures Valid() && (View(), status) == Register(old(View()), name, sid)
    {
      RegisterKeeps(View(), name, sid);
      var ok := MakeLock(sid);
      if !ok {
        return NoLock;
      }
      ghost var es := events[..];
      var e := MakeEvent(name);
      if e == events.Length {
        return NoEvent;
      }
      var rs, more := Enter(events[e].receivers, sid);
      events[e] := events[e].(receivers := rs, number := if more then events[e].number + 1 else events[e].number);
      assert events[..] == es[e := Added(EventFor(es, name).value.1, sid)];
      status := Done;
    }

    /** unregister_event */
    method UnregisterEvent(e: nat, sid: int)
      requires Valid() && e < events.Length && sid != NOT_USED
      modifies events
      ensures View() == Unregister(old(View()), e, sid)
    {
      ghost var v := events[e];
      assert EventOk(View(), events[..][e]);
      if events[e].number > 0 {
        var rs := events[e].receivers;
        var i := 0;
        while i < |rs| && rs[i] != sid
          invariant i <= |rs| && sid !in rs[..i]
        {
          i := i + 1;
        }
        var w := events[e];
        if i < |rs| {
          DistinctWithout(rs, sid, i);
          w := w.(receivers := rs[i := NOT_USED], number := w.number - 1);
        } else {
          assert rs[..|rs|] == rs;
        }
        events[e] := if w.number == 0 then w.(name := None, receivers := []) else w;
        assert events[..] == old(events[..])[e := events[e]];
      }
    }

    /** remove_receiver: stops early once both the session and some other receiver were seen */
    static method RemoveReceiver(rs: seq<int>, sid: int) returns (left: seq<int>, other: bool)
      requires Distinct(rs) && sid != NOT_USED
      ensures left == Without(rs, sid) && (other <==> Used(left) != {})
    {
      left, other := rs, false;
      var found := false;
      var i := 0;
      while i < |rs| && !(found && other)
        invariant i <= |rs| == |left|
        invariant forall j :: 0 <= j < |rs| ==> left[j] == if j < i && rs[j] == sid then NOT_USED else rs[j]
        invariant found <==> sid in rs[..i]
        invariant other <==> exists j :: 0 <= j < i && rs[j] != sid && rs[j] != NOT_USED
      {
        if rs[i] == sid {
          left, found := left[i := NOT_USED], true;
        } else if rs[i] != NOT_USED {
          other := true;
        }
        i := i + 1;
      }
      OthersLeft(rs, sid, i, found, other);
      assert left == Without(rs, sid);
    }

    /** Unlink and free the i-th echo of session k, and its message if nobody else waits for it */
    method TakeEcho(k: nat, i: nat)
      requires Valid() && k < locks.Length && i < |locks[k].echo|
      modifies this, events, locks
      ensures Live(old(View()), k, i) && View() == Consume(old(View()), k, i)
    {
      EchoLive(View(), k, i);
      var l, e := locks[k], locks[k].echo[i];
      assert MessageOk(View(), e.msg);
      var rs, other := RemoveReceiver(heap[e.msg].receivers, l.sid);
      if other {
        heap := heap[e.msg := heap[e.msg].(receivers := rs)];
      } else {
        heap := heap - {e.msg};
        events[e.id] := events[e.id].(messages := Unlink(events[e.id].messages, e.msg));
      }
      locks[k] := l.(echo := l.echo[..i] + l.echo[i + 1..]);
      taken := taken + {(e.msg, l.sid)};
    }

    /** The echoes before the i-th were all skipped */
    ghost predicate Skipped(k: nat, i: nat, id: int, filter: bool)
      reads locks
    {
      && k < locks.Length && i <= |locks[k].echo| && (filter || i == 0)
      && forall j :: 0 <= j < i ==> locks[k].echo[j].id != id
    }

    /** One turn of the loop below: skip the echo, or take it and resume at the one before it */
    method ReadEcho(k: nat, i: nat, id: int, all: bool, removeAll: bool, filter: bool) returns (j: nat, r: Option<Delivery>)
      requires Valid() && Skipped(k, i, id, filter) && i < |locks[k].echo|
      modifies this, events, locks
      ensures Valid() && Skipped(k, j, id, filter)
      ensures |locks[k].echo| < old(|locks[k].echo|) || (|locks[k].echo| == old(|locks[k].echo|) && j > i)
      ensures r.Some? ==> (View(), r) == Drain(old(View()), k, i, id, all, removeAll, filter)
      ensures r.None? ==> Drain(View(), k, j, id, all, removeAll, filter) == Drain(old(View()), k, i, id, all, removeAll, filter)
    {
      EchoLive(View(), k, i);
      ConsumeKeeps(View(), k, i);
      r := None;
      var e := locks[k].echo[i];
      if filter && e.id != id {
        return i + 1, None;
      }
      var text := heap[e.msg].text;
      TakeEcho(k, i);
      j := i;
      if !removeAll && (e.id == id || all) {
        r := Some(Delivery(events[e.id].name, text));
      } else if i > 0 {
        SkipAgain(View(), k, i - 1, id, all, removeAll);
        j := i - 1;
      }
    }

    /** find_and_remove_message_item */
    method FindAndRemove(id: int, sid: int, all: bool, removeAll: bool, filter: bool) returns (r: Option<Delivery>)
      requires Valid()
      modifies this, events, locks
      ensures Valid() && (View(), r) == Read(old(View()), sid, id, all, removeAll, filter)
    {
      r := None;
      var k := FindLock(sid);
      if k == locks.Length {
        return;
      }
      var i: nat := 0;
      ghost var goal := Drain(View(), k, 0, id, all, removeAll, filter);
      while i < |locks[k].echo|
        invariant Valid() && Skipped(k, i, id, filter) && r.None?
        invariant Drain(View(), k, i, id, all, removeAll, filter) == goal
        decreases |locks[k].echo|, |locks[k].echo| - i
      {
        i, r := ReadEcho(k, i, id, all, removeAll, filter);
        if r.Some? {
          return;
        }
      }
    }

    /** Some waiting message of the event has the text already */
    method IsQueued(e: nat, text: Option<string>) returns (found: bool)
      requires Valid() && e < events.Length
      ensures found <==> Queued(View(), e, text)
    {
      var ms := events[e].messages;
      var i := 0;
      while i < |ms|
        invariant i <= |ms| && forall j :: 0 <= j < i ==> ms[j] in heap && heap[ms[j]].text != text
      {
        assert ms[i] in View().events[e].messages;
        if heap[ms[i]].text == text {
          return true;
        }
        i := i + 1;
      }
      found := false;
    }

    /** An echo for one receiver, at the end of its list */
    method Notify(sid: int, e: Echo, ghost before: seq<Lock>, ghost told: set<int>)
      requires sid != NOT_USED && sid !in told && |before| == locks.Length
      requires forall k :: 0 <= k < locks.Length ==> locks[k] == Notified(before[k], told, e)
      modifies locks
      ensures forall k :: 0 <= k < locks.Length ==> locks[k] == Notified(before[k], told + {sid}, e)
    {
      var k := 0;
      while k < locks.Length
        invariant k <= locks.Length
        invariant forall j :: 0 <= j < k ==> locks[j] == Notified(before[j], told + {sid}, e)
        invariant forall j :: k <= j < locks.Length ==> locks[j] == Notified(before[j], told, e)
      {
        if locks[k].sid == sid {
          locks[k] := locks[k].(echo := locks[k].echo + [e]);
        }
        k := k + 1;
      }
    }

    /** create_message */
    method CreateMessage(name: string, text: Option<string>)
      requires Valid()
      modifies this, events, locks
      ensures Valid() && View() == Next(old(View()), Signals(name, text))
      ensures SignalDoes(old(View()), View(), name, text)
    {
      SignalKeeps(View(), name, text);
      SignalLaw(View(), name, text);
      var e := FindEvent(Some(name));
      if e == events.Length || events[e].number == 0 {
        return;
      }
      var queued := IsQueued(e, text);
      if queued {
        return;
      }
      PostMessage(e, text);
    }

    method PostMessage(e: nat, text: Option<string>)
      requires Valid() && e < events.Length
      modifies this, events, locks
      ensures View() == Post(old(View()), e, text)
    {
      ghost var before := locks[..];
      assert EventOk(View(), events[..][e]);
      var rs := events[e].receivers;
      var receivers := NotifyAll(rs, Echo(next, e));
      ghost var st := old(View());
      assert locks[..] == Post(st, e, text).locks;
      sent := sent[next := Used(rs)];
      heap := heap[next := Message(text, e, receivers)];
      events[e] := events[e].(messages := events[e].messages + [next]);
      next := next + 1;
      assert events[..] == Post(st, e, text).events;
    }

    /** The receivers of the new message, each given an echo */
    method NotifyAll(rs: seq<int>, e: Echo) returns (receivers: seq<int>)
      requires Distinct(rs)
      modifies locks
      ensures receivers == Compact(rs)
      ensures forall k :: 0 <= k < locks.Length ==> locks[k] == Notified(old(locks[k]), Used(rs), e)
    {
      ghost var before := locks[..];
      receivers := [];
      var j := 0;
      while j < |rs|
        invariant j <= |rs| && receivers == Compact(rs[..j])
        invariant forall k :: 0 <= k < locks.Length ==> locks[k] == Notified(before[k], Used(rs[..j]), e)
      {
        CompactNext(rs, j);
        if rs[j] != NOT_USED {
          receivers := receivers + [rs[j]];
          Notify(rs[j], e, before, Used(rs[..j]));
        }
        j := j + 1;
      }
      assert rs[..|rs|] == rs;
    }

    /** dbms_alert_remove */
    method RemoveEvent(name: string, sid: nat)
      requires Valid()
      modifies this, events, locks
      ensures Valid() && View() == Next(old(View()), Removes(name, sid))
      ensures Registered(View(), name) == Registered(old(View()), name) - {sid}
    {
      AlertLaws.RemoveLaw(View(), name, sid, name);
      var e := FindEvent(Some(name));
      if e < events.Length {
        RemoveAt(e, sid);
      }
    }

    method RemoveAt(e: nat, sid: nat)
      requires Valid() && e < events.Length
      modifies this, events, locks
      ensures Valid() && View() == Remove(old(View()), e, sid)
    {
      ReadAway(View(), sid, e);
      var r := FindAndRemove(e, sid, false, true, true);
      UnregisterKeeps(View(), e, sid);
      UnregisterEvent(e, sid);
    }

    /** dbms_alert_removeall */
    method RemoveAll(sid: nat)
      requires Valid()
      modifies this, events, locks
      ensures Valid() && View() == Next(old(View()), RemovesAll(sid))
      ensures EchoesOf(View(), sid) == []
    {
      RemoveAllLaw(View(), sid, "");
      ghost var goal := RemoveFrom(View(), 0, sid);
      var e := 0;
      while e < events.Length
        invariant e <= events.Length && Valid() && RemoveFrom(View(), e, sid) == goal
      {
        if events[e].name.Some? {
          RemoveAt(e, sid);
        }
        e := e + 1;
      }
    }

    /** One polling turn of dbms_alert_waitany */
    method WaitAny(sid: nat) returns (r: Option<Delivery>)
      requires Valid()
      modifies this, events, locks
      ensures Valid() && View() == Next(old(View()), WaitsAny(sid))
      ensures WaitAnyDoes(old(View()), View(), sid, r)
    {
      WaitAnyLaw(View(), sid);
      r := FindAndRemove(-1, sid, true, false, false);
    }

    /** One polling turn of dbms_alert_waitone */
    method WaitOne(name: string, sid: nat) returns (r: Option<Delivery>)
      requires Valid()
      modifies this, events, locks
      ensures Valid() && View() == Next(old(View()), WaitsOne(name, sid))
      ensures WaitOneDoes(old(View()), View(), name, sid, r)
    {
      WaitOneLaw(View(), name, sid);
      var e := FindEvent(Some(name));
      r := None;
      if e < events.Length {
        r := FindAndRemove(e, sid, false, false, false);
      }
    }
  }

  /** Whether anyone but s is left, when the scan stopped at i */
  lemma OthersLeft(rs: seq<int>, s: int, i: nat, found: bool, other: bool)
    requires Distinct(rs) && s != NOT_USED && i <= |rs| && (found <==> s in rs[..i])
    requires i == |rs| || (found && other)
    requires other <==> exists j :: 0 <= j < i && rs[j] != s && rs[j] != NOT_USED
    ensures other <==> Used(Without(rs, s)) != {}
    ensures forall j :: i <= j < |rs| ==> rs[j] != s
  {
    var t := Without(rs, s);
    if other {
      var j :| 0 <= j < i && rs[j] != s && rs[j] != NOT_USED;
      assert t[j] in Used(t);
    } else {
      assert forall x :: x in t ==> x == NOT_USED;
    }
  }

  /** The echo before the one that went is skipped a second time */
  lemma SkipAgain(st: State, k: nat, i: nat, id: int, all: bool, removeAll: bool)
    requires Inv(st) && k < |st.locks| && i < |st.locks[k].echo| && st.locks[k].echo[i].id != id
    ensures Drain(st, k, i, id, all, removeAll, true) == Drain(st, k, i + 1, id, all, removeAll, true)
  {
  }

  lemma {:induction false} CompactNext(rs: seq<int>, j: nat)
    requires j < |rs| && Distinct(rs)
    ensures Compact(rs[..j + 1]) == Compact(rs[..j]) + if rs[j] == NOT_USED then [] else [rs[j]]
    ensures Used(rs[..j + 1]) == if rs[j] == NOT_USED then Used(rs[..j]) else Used(rs[..j]) + {rs[j]}
    ensures rs[j] !in Used(rs[..j])
  {
    assert rs[..j + 1] == rs[..j] + [rs[j]];
    CompactAppend(rs[..j], rs[j]);
  }

  lemma {:induction false} CompactAppend(rs: seq<int>, x: int)
    ensures Compact(rs + [x]) == Compact(rs) + if x == NOT_USED then [] else [x]
  {
    if rs == [] {
      assert rs + [x] == [x];
    } else {
      CompactAppend(rs[1..], x);
      assert (rs + [x])[1..] == rs[1..] + [x];
    }
  }

  lemma DistinctWithout(rs: seq<int>, s: int, i: nat)
    requires Distinct(rs) && i < |rs| && rs[i] == s && s != NOT_USED
    ensures rs[i := NOT_USED] == Without(rs, s)
  {
    assert forall j :: 0 <= j < |rs| && j != i ==> rs[j] != s;
  }
}
