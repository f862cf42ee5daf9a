/**
 What each operation of the alert protocol does, in terms of the registrations, the
 messages in shared memory and the echoes of the sessions.
 */
module AlertLaws {

  import opened Common
  import opened AlertSpec
  import opened AlertSteps

  /** Slot e is in use for that event */
  predicate Bears(st: State, e: nat, name: string) {
    e < |st.events| && st.events[e].name == Some(name)
  }

  /** The echoes of a session, oldest first */
  function EchoesOf(st: State, s: int): seq<Echo> {
    var k := FirstLock(st.locks, s); if k < |st.locks| then st.locks[k].echo else []
  }

  lemma NamedIff(st: State, name: string)
    requires Inv(st)
    ensures Registered(st, name) != {} <==> FirstEvent(st.events, Some(name)) < |st.events|
    ensures Registered(st, name) != {} <==> exists e :: Bears(st, e, name)
  {
    var e := FirstEvent(st.events, Some(name));
    if e < |st.events| {
      assert EventOk(st, st.events[e]);
      assert Bears(st, e, name);
    }
  }

  lemma OnlySlot(st: State, d: nat, e: nat, name: string)
    requires Inv(st) && Bears(st, d, name) && Bears(st, e, name)
    ensures d == e
  {
  }

  // ---------------------------------------------------------------- signalling

  /** A message of that event and text is still waited for */
  ghost predicate Pending(st: State, name: string, text: Option<string>) {
    exists m :: m in st.heap && Bears(st, st.heap[m].id, name) && st.heap[m].text == text
  }

  /** A lock after message m for the sessions rs: one more echo, at the end */
  ghost predicate Told(l: Lock, l': Lock, rs: set<int>, m: nat) {
    && l'.sid == l.sid
    && if l.sid in rs then |l'.echo| == |l.echo| + 1 && l'.echo[..|l.echo|] == l.echo && l'.echo[|l.echo|].msg == m
       else l' == l
  }

  /** t is st with one new message of that event and text, for exactly the registered sessions */
  ghost predicate Posted(st: State, t: State, name: string, text: Option<string>) {
    && st.next !in st.heap && st.next in t.heap && t.heap - {st.next} == st.heap
    && t.heap[st.next].text == text && Used(t.heap[st.next].receivers) == Registered(st, name)
    && Bears(t, t.heap[st.next].id, name) && t.taken == st.taken && |t.locks| == |st.locks|
    && forall k {:trigger Told(st.locks[k], t.locks[k], Registered(st, name), st.next)} ::
         0 <= k < |st.locks| ==> Told(st.locks[k], t.locks[k], Registered(st, name), st.next)
  }

  /** A signal posts a message exactly when somebody is registered and no such message is pending; otherwise it changes nothing */
  ghost predicate SignalDoes(st: State, t: State, name: string, text: Option<string>) {
    if Registered(st, name) != {} && !Pending(st, name, text) then Posted(st, t, name, text) else t == st
  }

  lemma QueuedIff(st: State, e: nat, name: string, text: Option<string>)
    requires Inv(st) && Bears(st, e, name)
    ensures Queued(st, e, text) <==> Pending(st, name, text)
  {
    if Queued(st, e, text) {
      var m :| m in st.events[e].messages && m in st.heap && st.heap[m].text == text;
      assert Bears(st, st.heap[m].id, name);
    }
    if Pending(st, name, text) {
      var m :| m in st.heap && Bears(st, st.heap[m].id, name) && st.heap[m].text == text;
      assert MessageOk(st, m);
      OnlySlot(st, st.heap[m].id, e, name);
    }
  }

  lemma PostPosts(st: State, e: nat, name: string, text: Option<string>)
    requires Inv(st) && Bears(st, e, name)
    ensures Posted(st, Post(st, e, text), name, text)
  {
    var t := Post(st, e, text);
    RegisteredAt(st, e, name);
    FreshAddress(st, e);
    assert EventOk(st, st.events[e]);
    CompactUsed(st.events[e].receivers);
    forall k | 0 <= k < |st.locks|
      ensures Told(st.locks[k], t.locks[k], Registered(st, name), st.next)
    {
    }
  }

  lemma SignalLaw(st: State, name: string, text: Option<string>)
    requires Inv(st)
    ensures SignalDoes(st, Next(st, Signals(name, text)), name, text)
  {
    NamedIff(st, name);
    var e := FirstEvent(st.events, Some(name));
    if e < |st.events| {
      assert EventOk(st, st.events[e]);
      RegisteredAt(st, e, name);
      QueuedIff(st, e, name, text);
      if !Queued(st, e, text) {
        PostPosts(st, e, name, text);
      }
    }
  }

  /**
   Somebody is registered and no such message is pending: then the signal's message
   reaches exactly the registered sessions. After any run each of them has consumed it
   or waits for it, and not both; nobody else ever does.
   */
  lemma SignalReaches(st: State, name: string, text: Option<string>, acts: seq<Action>, t: State, s: int)
    requires Inv(st) && Registered(st, name) != {} && !Pending(st, name, text) && Run(Next(st, Signals(name, text)), acts, t)
    ensures Inv(t)
    ensures s in Registered(st, name) <==> (st.next, s) in t.taken || Waits(t, st.next, s)
    ensures !((st.next, s) in t.taken && Waits(t, st.next, s))
  {
    SignalLaw(st, name, text);
    ReachesEachOnce(st, name, text, acts, t, s);
  }

  /** Signalling changes no registration */
  lemma SignalKeepsNames(st: State, name: string, text: Option<string>, other: string)
    requires Inv(st)
    ensures Registered(Next(st, Signals(name, text)), other) == Registered(st, other)
  {
    var t := Next(st, Signals(name, text));
    var e := FirstEvent(st.events, Some(name));
    if t != st {
      assert forall d :: 0 <= d < |st.events| ==> SameReceivers(st.events[d], t.events[d]);
      SameFirst(st.events, t.events, other);
    }
  }

  lemma SameFirst(es: seq<Event>, fs: seq<Event>, name: string)
    requires |es| == |fs| && forall d :: 0 <= d < |es| ==> SameReceivers(es[d], fs[d])
    ensures var f := FirstEvent(es, Some(name));
      FirstEvent(fs, Some(name)) == f && (f < |es| ==> fs[f].receivers == es[f].receivers)
  {
    var f, g := FirstEvent(es, Some(name)), FirstEvent(fs, Some(name));
    assert f < |es| ==> SameReceivers(es[f], fs[f]);
    assert g < |fs| ==> SameReceivers(es[g], fs[g]);
  }

  // ---------------------------------------------------------------- waiting

  /** The sessions other than s have the echoes they had */
  ghost predicate OthersKeepEchoes(st: State, t: State, s: int) {
    forall x :: x != s ==> EchoesOf(t, x) == EchoesOf(st, x)
  }

  lemma ReadsEchoes(st: State, t: State, s: int)
    requires OnlyReads(st, t, FirstLock(st.locks, s))
    ensures OthersKeepEchoes(st, t, s)
    ensures FirstLock(t.locks, s) == FirstLock(st.locks, s)
  {
    forall x
      ensures FirstLock(t.locks, x) == FirstLock(st.locks, x)
    {
      SameLock(st.locks, t.locks, x);
    }
  }

  lemma SameLock(ls: seq<Lock>, ms: seq<Lock>, x: int)
    requires |ls| == |ms| && forall j :: 0 <= j < |ls| ==> ls[j].sid == ms[j].sid
    ensures FirstLock(ms, x) == FirstLock(ls, x)
  {
    var i, j := FirstLock(ls, x), FirstLock(ms, x);
    assert i < |ls| ==> ls[i].sid == ms[i].sid;
    assert j < |ls| ==> ls[j].sid == ms[j].sid;
  }

  /** WAITANY: the session's oldest message is delivered and no longer waits for it; without one nothing happens */
  ghost predicate WaitAnyDoes(st: State, t: State, s: int, r: Option<Delivery>) {
    var es := EchoesOf(st, s);
    if es == [] then t == st && r.None?
    else
      var m := es[0].msg;
      && m in st.heap && st.heap[m].id < |st.events|
      && r == Some(Delivery(st.events[st.heap[m].id].name, st.heap[m].text))
      && EchoesOf(t, s) == es[1..] && (m, s) in t.taken && OthersKeepEchoes(st, t, s)
  }

  lemma WaitAnyLaw(st: State, s: nat)
    requires Inv(st)
    ensures WaitAnyDoes(st, Next(st, WaitsAny(s)), s, Read(st, s, -1, true, false, false).1)
  {
    var k := FirstLock(st.locks, s);
    if k < |st.locks| {
      DrainAny(st, k);
      DrainOnlyReads(st, k, 0, -1, true, false, false);
      ReadsEchoes(st, Next(st, WaitsAny(s)), s);
      if st.locks[k].echo != [] {
        EchoLive(st, k, 0);
      }
    }
  }

  /** Echo f is the first of that event */
  ghost predicate FirstNamed(st: State, es: seq<Echo>, f: nat, name: string) {
    f < |es| && Bears(st, es[f].id, name) && forall j :: 0 <= j < f ==> !Bears(st, es[j].id, name)
  }

  /**
   WAITONE: the oldest message of the event is delivered, and it and all older ones are
   gone; without one all are gone, unless the event is not in use.
   */
  ghost predicate WaitOneDoes(st: State, t: State, name: string, s: int, r: Option<Delivery>) {
    var es := EchoesOf(st, s);
    && OthersKeepEchoes(st, t, s)
    && (Registered(st, name) == {} ==> t == st && r.None?)
    && (Registered(st, name) != {} && r.None? ==> EchoesOf(t, s) == [] && forall j :: 0 <= j < |es| ==> !Bears(st, es[j].id, name))
    && (r.Some? ==> exists f: nat {:trigger FirstNamed(st, es, f, name)} ::
          && FirstNamed(st, es, f, name) && EchoesOf(t, s) == es[f + 1..]
          && es[f].msg in st.heap && r == Some(Delivery(Some(name), st.heap[es[f].msg].text)))
  }

  lemma WaitOneLaw(st: State, name: string, s: nat)
    requires Inv(st)
    ensures var e := FirstEvent(st.events, Some(name));
      WaitOneDoes(st, Next(st, WaitsOne(name, s)), name, s, if e < |st.events| then Read(st, s, e, false, false, false).1 else None)
  {
    NamedIff(st, name);
    var e, k := FirstEvent(st.events, Some(name)), FirstLock(st.locks, s);
    if e < |st.events| && k < |st.locks| {
      WaitOneAt(st, name, s, e, k);
    }
  }

  lemma WaitOneAt(st: State, name: string, s: nat, e: nat, k: nat)
    requires Inv(st) && e < |st.events| && k < |st.locks| && Bears(st, e, name) && k == FirstLock(st.locks, s) && Registered(st, name) != {}
    ensures var r := Drain(st, k, 0, e, false, false, false); WaitOneDoes(st, r.0, name, s, r.1)
  {
    var r := Drain(st, k, 0, e, false, false, false);
    DrainOne(st, k, e);
    DrainOnlyReads(st, k, 0, e, false, false, false);
    ReadsEchoes(st, r.0, s);
    FirstOfNamed(st, st.locks[k].echo, e, name);
  }

  /** The first echo with the slot of the event is the first of the event */
  lemma FirstOfNamed(st: State, es: seq<Echo>, e: nat, name: string)
    requires Inv(st) && Bears(st, e, name)
    ensures var f := FirstOf(es, e); f < |es| ==> FirstNamed(st, es, f, name)
    ensures FirstOf(es, e) == |es| ==> forall j :: 0 <= j < |es| ==> !Bears(st, es[j].id, name)
  {
    forall j | 0 <= j < |es| && Bears(st, es[j].id, name)
      ensures es[j].id == e
    {
      OnlySlot(st, es[j].id, e, name);
    }
  }

  // ---------------------------------------------------------------- registering

  /** The session has a lock or can get one */
  ghost predicate LockFor(st: State, s: int) {
    exists k :: 0 <= k < |st.locks| && (st.locks[k].sid == s || st.locks[k].sid == NOT_USED)
  }

  /** The event is in use or a slot is free for it */
  ghost predicate SlotFor(st: State, name: string) {
    exists e :: 0 <= e < |st.events| && (st.events[e].name == Some(name) || st.events[e].name == None)
  }

  /** Registering succeeds exactly when there are a lock and a slot, and says which of them is missing */
  lemma RegisterStatus(st: State, name: string, s: int)
    ensures var status := Register(st, name, s).1;
      && (status.NoLock? <==> !LockFor(st, s))
      && (status.NoEvent? <==> LockFor(st, s) && !SlotFor(st, name))
      && (status.Done? <==> LockFor(st, s) && SlotFor(st, name))
  {
    LockIff(st, s);
    SlotIff(st, name);
  }

  lemma LockIff(st: State, s: int)
    ensures LockFor(st, s) <==> WithLock(st, s).Some?
    ensures WithLock(st, s).Some? ==> WithLock(st, s).value.events == st.events
  {
    var i, j := FirstLock(st.locks, s), FirstLock(st.locks, NOT_USED);
    assert i < |st.locks| ==> st.locks[i].sid == s;
    assert j < |st.locks| ==> st.locks[j].sid == NOT_USED;
  }

  lemma SlotIff(st: State, name: string)
    ensures SlotFor(st, name) <==> EventFor(st.events, name).Some?
    ensures EventFor(st.events, name).Some? ==> EventFor(st.events, name).value.0 < |st.events|
  {
    var i, j := FirstEvent(st.events, Some(name)), FirstEvent(st.events, None);
    assert i < |st.events| ==> st.events[i].name == Some(name);
    assert j < |st.events| ==> st.events[j].name == None;
  }

  /** The registering step: the session is added to that event where it succeeds, and to no other */
  lemma RegisterLaw(st: State, name: string, s: nat, other: string)
    requires Inv(st) && CanRegister(st.events, name, s)
    ensures Registered(Next(st, Registers(name, s)), other)
         == if other == name && LockFor(st, s) && SlotFor(st, name) then Registered(st, name) + {s} else Registered(st, other)
  {
    RegisterAdds(st, name, s, other);
    RegisterStatus(st, name, s);
  }

  /** It changes nothing that waits for anybody */
  lemma RegisterKeepsEchoes(st: State, name: string, s: nat, x: int)
    requires Inv(st) && CanRegister(st.events, name, s) && x != NOT_USED
    ensures var t := Next(st, Registers(name, s)); t.heap == st.heap && t.taken == st.taken && EchoesOf(t, x) == EchoesOf(st, x)
  {
    LockEchoes(st, s, x);
  }

  lemma LockEchoes(st: State, s: int, x: int)
    requires x != NOT_USED
    ensures WithLock(st, s).Some? ==> var u := WithLock(st, s).value;
      u.heap == st.heap && u.taken == st.taken && EchoesOf(u, x) == EchoesOf(st, x)
  {
    var k := FirstLock(st.locks, NOT_USED);
    if FirstLock(st.locks, s) == |st.locks| && k < |st.locks| {
      NewLockEchoes(st, k, s, x);
    }
  }

  lemma NewLockEchoes(st: State, k: nat, s: int, x: int)
    requires k < |st.locks| && st.locks[k].sid == NOT_USED && FirstLock(st.locks, s) == |st.locks| && x != NOT_USED
    ensures EchoesOf(AddLock(st, k, s), x) == EchoesOf(st, x)
  {
    var ls, ms := st.locks, AddLock(st, k, s).locks;
    var i, j := FirstLock(ls, x), FirstLock(ms, x);
    assert ms[k] == Lock(s, []) && forall d :: 0 <= d < |ls| && d != k ==> ms[d] == ls[d];
    if x != s {
      assert i < |ls| ==> ms[i].sid == x;
      assert j < |ls| ==> ls[j].sid == x;
    }
  }

  // ---------------------------------------------------------------- removing

  /** Removing an event: the session is off it, and off no other */
  lemma RemoveLaw(st: State, name: string, s: nat, other: string)
    requires Inv(st)
    ensures Registered(Next(st, Removes(name, s)), other) == if other == name then Registered(st, name) - {s} else Registered(st, other)
  {
    var e := FirstEvent(st.events, Some(name));
    if e < |st.events| {
      RemoveDrops(st, e, s, other);
    }
  }

  /** Only slot e may lose its name */
  lemma RemoveNames(st: State, e: nat, s: int, d: nat)
    requires Inv(st) && e < |st.events| && s != NOT_USED && d < |st.events|
    ensures var t := Remove(st, e, s); t.events[d].name == st.events[d].name || (d == e && t.events[d].name.None?)
  {
    var u := Read(st, s, e, false, true, true).0;
    ReadKeepsNames(st, s, e, false, true, true, "");
    ReadAway(st, s, e);
    UnregisterSlot(u, e, s);
  }

  /** Who is registered after removing from slot e on */
  function LeftFrom(st: State, e: nat, s: int, name: string): set<int> {
    var i := FirstEvent(st.events, Some(name)); if e <= i < |st.events| then Registered(st, name) - {s} else Registered(st, name)
  }

  lemma {:induction false} RemoveFromDrops(st: State, e: nat, s: int, name: string)
    requires Inv(st) && s != NOT_USED
    ensures Registered(RemoveFrom(st, e, s), name) == LeftFrom(st, e, s, name)
    decreases |st.events| - e
  {
    if e < |st.events| {
      if st.events[e].name.Some? {
        RemoveOne(st, e, s, name);
        RemoveFromDrops(Remove(st, e, s), e + 1, s, name);
      } else {
        RemoveFromDrops(st, e + 1, s, name);
      }
    }
  }

  /** One turn of removing all */
  lemma RemoveOne(st: State, e: nat, s: int, name: string)
    requires Inv(st) && e < |st.events| && s != NOT_USED
    ensures LeftFrom(Remove(st, e, s), e + 1, s, name) == LeftFrom(st, e, s, name)
  {
    RemoveDrops(st, e, s, name);
    NameMoves(st, Remove(st, e, s), e, s, name);
    var i := FirstEvent(st.events, Some(name));
    if i != e && st.events[e].name == Some(name) {
      OnlySlot(st, i, e, name);
    }
  }

  lemma NameMoves(st: State, u: State, e: nat, s: int, name: string)
    requires Inv(st) && e < |st.events| && s != NOT_USED && u == Remove(st, e, s)
    ensures var i, j := FirstEvent(st.events, Some(name)), FirstEvent(u.events, Some(name));
      if i == e then j == e || j == |u.events| else j == i
  {
    var i, j := FirstEvent(st.events, Some(name)), FirstEvent(u.events, Some(name));
    forall d | 0 <= d < |st.events|
      ensures u.events[d].name == st.events[d].name || (d == e && u.events[d].name.None?)
    {
      RemoveNames(st, e, s, d);
    }
    if i == e && j < |u.events| {
      assert Bears(st, j, name) && Bears(st, i, name);
    }
  }

  /** Removing all: the session is registered nowhere any more, no one else is affected, and nothing waits for it */
  lemma RemoveAllLaw(st: State, s: nat, name: string)
    requires Inv(st)
    ensures Registered(Next(st, RemovesAll(s)), name) == Registered(st, name) - {s}
    ensures EchoesOf(Next(st, RemovesAll(s)), s) == []
  {
    var t := Next(st, RemovesAll(s));
    RemoveFromDrops(st, 0, s, name);
    forall n: string
      ensures s !in Registered(t, n)
    {
      RemoveFromDrops(st, 0, s, n);
    }
    NoEchoes(t, s);
  }

  /** Who is registered nowhere has no echoes */
  lemma NoEchoes(t: State, s: int)
    requires Inv(t) && forall n: string {:trigger Registered(t, n)} :: s !in Registered(t, n)
    ensures EchoesOf(t, s) == []
  {
    var k := FirstLock(t.locks, s);
    if k < |t.locks| && t.locks[k].echo != [] {
      EchoLive(t, k, 0);
      var x := t.locks[k].echo[0];
      assert MessageOk(t, x.msg);
      RegisteredAt(t, x.id, t.events[x.id].name.value);
    }
  }
}
