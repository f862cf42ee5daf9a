/**
 The table of named pipes as a state machine. Every operation runs under one
 exclusive lock, so each is one step; whether an allocation succeeds is a
 parameter of the step.
 */
module PipeSpec {

  import opened Common

  /** A packed message as it lies in shared memory: its bytes and its item count */
  datatype Message = Message(bytes: seq<byte>, items: nat)

  /** pipe; `owner` is the user of a private pipe, `limit` is -1 for none */
  datatype Pipe = Pipe(valid: bool, registered: bool, name: string, owner: Option<nat>,
                       items: seq<Message>, count: int, limit: int, size: int)

  const MAX_PIPES := 30

  function Total(ms: seq<Message>): nat {
    if ms == [] then 0 else |ms[0].bytes| + Total(ms[1..])
  }

  lemma {:induction false} TotalAppend(ms: seq<Message>, m: Message)
    ensures Total(ms + [m]) == Total(ms) + |m.bytes|
  {
    if ms == [] {
      assert ms + [m] == [m];
    } else {
      assert (ms + [m])[1..] == ms[1..] + [m];
      TotalAppend(ms[1..], m);
    }
  }

  /** The counters tell the truth, and a slot that is not in use holds nothing */
  predicate PipeOk(p: Pipe) {
    p.count == |p.items| && p.size == Total(p.items) && (!p.valid ==> p.items == [])
  }

  predicate TableOk(ps: seq<Pipe>) {
    && |ps| == MAX_PIPES
    && (forall i :: 0 <= i < |ps| ==> PipeOk(ps[i]))
    && (forall i, j :: 0 <= i < j < |ps| && ps[i].valid && ps[j].valid ==> ps[i].name != ps[j].name)
  }

  /** The first pipe in use of that name, or the table's length */
  function Named(ps: seq<Pipe>, name: string): (k: nat)
    ensures k <= |ps| && (k < |ps| ==> ps[k].valid && ps[k].name == name)
    ensures forall j :: 0 <= j < k ==> !(ps[j].valid && ps[j].name == name)
  {
    if ps == [] || (ps[0].valid && ps[0].name == name) then 0 else Named(ps[1..], name) + 1
  }

  /** The first slot not in use */
  function Unused(ps: seq<Pipe>): (k: nat)
    ensures k <= |ps| && (k < |ps| ==> !ps[k].valid) && forall j :: 0 <= j < k ==> ps[j].valid
  {
    if ps == [] || !ps[0].valid then 0 else Unused(ps[1..]) + 1
  }

  /** What waits in the pipe of that name; nothing if there is no such pipe */
  function Queue(ps: seq<Pipe>, name: string): seq<Message> {
    var k := Named(ps, name); if k < |ps| then ps[k].items else []
  }

  datatype Found = Denied | Missing | At(k: nat, created: bool, table: seq<Pipe>)

  /** A new pipe takes over the slot's queue and size, which are empty there */
  function Opened(p: Pipe, name: string): Pipe {
    p.(valid := true, registered := false, name := name, owner := None, count := 0, limit := -1)
  }

  /** find_pipe; nameFits says whether the name could be stored */
  function Find(ps: seq<Pipe>, name: string, uid: nat, onlyCheck: bool, nameFits: bool): (f: Found)
    ensures f.At? ==> f.k < |f.table| == |ps| && f.table[f.k].valid && f.table[f.k].name == name
  {
    var k := Named(ps, name);
    if k < |ps| then if ps[k].owner.Some? && ps[k].owner.value != uid then Denied else At(k, false, ps)
    else if onlyCheck then Missing
    else
      var u := Unused(ps);
      if u < |ps| && nameFits then At(u, true, ps[u := Opened(ps[u], name)]) else Missing
  }

  /** No allocation fails, or which of them do */
  datatype Memory = Memory(name: bool, message: bool, item: bool)

  datatype Outcome = Yes | No | Refused

  /** The limit after a call that may raise it */
  function Raised(p: Pipe, created: bool, limit: Option<int>): Pipe {
    if limit.Some? && (created || p.limit < limit.value) then p.(limit := limit.value) else p
  }

  predicate Full(p: Pipe) {
    p.count >= p.limit && p.limit != -1
  }

  /** new_last, together with its caller's update of the size */
  function Appended(p: Pipe, m: Message): Pipe {
    p.(items := p.items + [m], count := if p.items == [] then 1 else p.count + 1, size := p.size + |m.bytes|)
  }

  /** The pipe after add_to_pipe found or created it */
  function AddedTo(p: Pipe, created: bool, msg: Option<Message>, limit: Option<int>, mem: Memory): (Pipe, Outcome) {
    var q := Raised(if created then p.(registered := msg.None?) else p, created, limit);
    if msg.None? then (q, Yes)
    else if mem.message && !Full(q) && mem.item then (Appended(q, msg.value), Yes)
    else (if created then q.(valid := false) else q, No)
  }

  /** add_to_pipe: append a message, or only register the pipe */
  function Add(ps: seq<Pipe>, name: string, uid: nat, msg: Option<Message>, limit: Option<int>, mem: Memory): (seq<Pipe>, Outcome) {
    match Find(ps, name, uid, false, mem.name)
    case Denied => (ps, Refused)
    case Missing => (ps, No)
    case At(k, created, table) =>
      var (p, out) := AddedTo(table[k], created, msg, limit, mem);
      (table[k := p], out)
  }

  /** remove_first, together with its caller's update of the size */
  function Popped(p: Pipe): Pipe
    requires p.items != []
  {
    p.(items := p.items[1..], count := p.count - 1, size := p.size - |p.items[0].bytes|,
       valid := p.valid && (|p.items| > 1 || p.registered))
  }

  /** get_from_pipe */
  function Get(ps: seq<Pipe>, name: string, uid: nat, nameFits: bool): (seq<Pipe>, Option<Message>, Outcome) {
    match Find(ps, name, uid, false, nameFits)
    case Denied => (ps, None, Refused)
    case Missing => (ps, None, No)
    case At(k, created, table) =>
      if created || table[k].items == [] then (table, None, No)
      else (table[k := Popped(table[k])], Some(table[k].items[0]), Yes)
  }

  /** remove_pipe; purging keeps a registered pipe */
  function Remove(ps: seq<Pipe>, name: string, uid: nat, purge: bool): (seq<Pipe>, Outcome) {
    match Find(ps, name, uid, true, true)
    case Denied => (ps, Refused)
    case Missing => (ps, No)
    case At(k, created, table) =>
      (ps[k := ps[k].(items := [], size := 0, count := 0, valid := purge && ps[k].registered)], Yes)
  }

  /** dbms_pipe_create_pipe */
  function Create(ps: seq<Pipe>, name: string, uid: nat, limit: Option<int>, private: bool, nameFits: bool): (seq<Pipe>, Outcome) {
    match Find(ps, name, uid, false, nameFits)
    case Denied => (ps, Refused)
    case Missing => (ps, No)
    case At(k, created, table) =>
      if !created then (ps, Refused)
      else (table[k := table[k].(owner := if private then Some(uid) else None,
                                 limit := if limit.Some? then limit.value else -1, registered := true)], Yes)
  }

  // ---------------------------------------------------------------- what every step keeps

  /** Changing one slot keeps the table if its name is not in use elsewhere */
  lemma Replace(ps: seq<Pipe>, k: nat, p: Pipe)
    requires TableOk(ps) && k < |ps| && PipeOk(p)
    requires forall j :: 0 <= j < |ps| && j != k && ps[j].valid && p.valid ==> ps[j].name != p.name
    ensures TableOk(ps[k := p])
  {
  }

  lemma SameAt(ps: seq<Pipe>, k: nat, p: Pipe, j: nat)
    requires k < |ps| && j <= |ps|
    ensures j < |ps| && j != k ==> ps[k := p][j] == ps[j]
  {
  }

  /** The queue of a name that a changed slot does not bear is unchanged */
  lemma Elsewhere(ps: seq<Pipe>, k: nat, p: Pipe, name: string)
    requires TableOk(ps) && k < |ps| && TableOk(ps[k := p])
    requires ps[k].items != [] ==> ps[k].name != name
    requires p.valid && p.items != [] ==> p.name != name
    ensures Queue(ps[k := p], name) == Queue(ps, name)
  {
    var i, j := Named(ps, name), Named(ps[k := p], name);
    if i < |ps| && i != k {
      assert ps[k := p][i] == ps[i];
      Unique(ps[k := p], i, name);
    } else {
      SameAt(ps, k, p, j);
    }
  }

  lemma Unique(ps: seq<Pipe>, k: nat, name: string)
    requires TableOk(ps) && k < |ps| && ps[k].valid && ps[k].name == name
    ensures Named(ps, name) == k && Queue(ps, name) == ps[k].items
  {
  }

  /** Finding keeps the table, and creating a pipe shows no messages and hides none */
  lemma FindKeeps(ps: seq<Pipe>, name: string, uid: nat, onlyCheck: bool, nameFits: bool, other: string)
    requires TableOk(ps)
    ensures var f := Find(ps, name, uid, onlyCheck, nameFits);
      && (f.At? ==> TableOk(f.table) && Queue(f.table, other) == Queue(ps, other))
      && (f.At? ==> Named(f.table, name) == f.k && f.table[f.k].items == Queue(ps, name) && (f.created ==> Queue(ps, name) == []))
  {
    var f := Find(ps, name, uid, onlyCheck, nameFits);
    if f.At? {
      if f.created {
        Replace(ps, f.k, Opened(ps[f.k], name));
        Elsewhere(ps, f.k, Opened(ps[f.k], name), other);
      }
      Unique(f.table, f.k, name);
    }
  }

  /** One slot changed to p: the queue of its name becomes p's, all others stay */
  lemma ReplaceQueue(ps: seq<Pipe>, k: nat, p: Pipe, name: string, other: string)
    requires TableOk(ps) && k < |ps| && ps[k].valid && ps[k].name == name && PipeOk(p) && p.name == name
    ensures TableOk(ps[k := p])
    ensures Queue(ps[k := p], other) == if other == name then p.items else Queue(ps, other)
  {
    Unique(ps, k, name);
    Replace(ps, k, p);
    if other != name {
      Elsewhere(ps, k, p, other);
    } else if p.valid {
      Unique(ps[k := p], k, name);
    } else {
      Gone(ps, k, p, name);
    }
  }

  lemma Gone(ps: seq<Pipe>, k: nat, p: Pipe, name: string)
    requires TableOk(ps) && k < |ps| && ps[k].valid && ps[k].name == name && !p.valid
    ensures Named(ps[k := p], name) == |ps|
  {
    var j := Named(ps[k := p], name);
    SameAt(ps, k, p, j);
  }

  lemma AddedOk(p: Pipe, created: bool, msg: Option<Message>, limit: Option<int>, mem: Memory)
    requires PipeOk(p) && p.valid && (created ==> p.items == [])
    ensures var (q, out) := AddedTo(p, created, msg, limit, mem);
      && PipeOk(q) && q.name == p.name
      && q.items == if out.Yes? && msg.Some? then p.items + [msg.value] else p.items
  {
    if msg.Some? {
      TotalAppend(p.items, msg.value);
    }
  }

  /** A message was sent: it is last in its queue; otherwise no queue changed */
  lemma AddQueue(ps: seq<Pipe>, name: string, uid: nat, msg: Option<Message>, limit: Option<int>, mem: Memory, other: string)
    requires TableOk(ps)
    ensures var (t, out) := Add(ps, name, uid, msg, limit, mem);
      && TableOk(t)
      && Queue(t, other) == if other == name && out.Yes? && msg.Some? then Queue(ps, name) + [msg.value] else Queue(ps, other)
  {
    FindKeeps(ps, name, uid, false, mem.name, other);
    var f := Find(ps, name, uid, false, mem.name);
    if f.At? {
      AddedOk(f.table[f.k], f.created, msg, limit, mem);
      var p := AddedTo(f.table[f.k], f.created, msg, limit, mem).0;
      ReplaceQueue(f.table, f.k, p, name, other);
    }
  }

  /** The limit in force for a call */
  function InForce(now: int, created: bool, limit: Option<int>): int {
    if limit.Some? && (created || now < limit.value) then limit.value else now
  }

  predicate Room(limit: int, waiting: nat) {
    limit == -1 || waiting < limit
  }

  /** No such pipe, or one the user may use */
  predicate Permitted(ps: seq<Pipe>, name: string, uid: nat) {
    var k := Named(ps, name); k < |ps| && ps[k].owner.Some? ==> ps[k].owner.value == uid
  }

  /**
   When a message is sent: to an existing pipe, if the caller may use it, memory
   suffices and fewer messages wait than the limit in force, which a call can only
   raise; to a new one, if there is a slot and the limit is not 0 or below -1.
   */
  predicate Admits(ps: seq<Pipe>, name: string, uid: nat, limit: Option<int>, mem: Memory) {
    && Permitted(ps, name, uid) && mem.message && mem.item
    && var k := Named(ps, name);
       if k < |ps| then Room(InForce(ps[k].limit, false, limit), |Queue(ps, name)|)
       else Unused(ps) < |ps| && mem.name && Room(InForce(-1, true, limit), 0)
  }

  lemma AddOutcome(ps: seq<Pipe>, name: string, uid: nat, msg: Message, limit: Option<int>, mem: Memory)
    requires TableOk(ps)
    ensures Add(ps, name, uid, Some(msg), limit, mem).1.Refused? <==> !Permitted(ps, name, uid)
    ensures Add(ps, name, uid, Some(msg), limit, mem).1.Yes? <==> Admits(ps, name, uid, limit, mem)
  {
  }

  /** A message was received: it was first in its queue; otherwise no queue changed */
  lemma GetQueue(ps: seq<Pipe>, name: string, uid: nat, nameFits: bool, other: string)
    requires TableOk(ps)
    ensures var (t, m, out) := Get(ps, name, uid, nameFits);
      && TableOk(t) && (m.Some? <==> out.Yes?)
      && (m.Some? ==> Queue(ps, name) == [m.value] + Queue(t, name))
      && (m.None? || other != name ==> Queue(t, other) == Queue(ps, other))
      && (out.No? ==> Queue(ps, name) == []) && (out.Refused? <==> !Permitted(ps, name, uid))
  {
    FindKeeps(ps, name, uid, false, nameFits, other);
    FindKeeps(ps, name, uid, false, nameFits, name);
    var f := Find(ps, name, uid, false, nameFits);
    if f.At? && f.table[f.k].items != [] {
      ReplaceQueue(f.table, f.k, Popped(f.table[f.k]), name, name);
      ReplaceQueue(f.table, f.k, Popped(f.table[f.k]), name, other);
    }
  }

  lemma RemoveQueue(ps: seq<Pipe>, name: string, uid: nat, purge: bool, other: string)
    requires TableOk(ps)
    ensures var (t, out) := Remove(ps, name, uid, purge);
      TableOk(t) && Queue(t, other) == if other == name && out.Yes? then [] else Queue(ps, other)
  {
    FindKeeps(ps, name, uid, true, true, other);
    var f := Find(ps, name, uid, true, true);
    if f.At? {
      ReplaceQueue(ps, f.k, ps[f.k].(items := [], size := 0, count := 0, valid := purge && ps[f.k].registered), name, other);
    }
  }

  lemma CreateQueue(ps: seq<Pipe>, name: string, uid: nat, limit: Option<int>, private: bool, nameFits: bool, other: string)
    requires TableOk(ps)
    ensures var (t, out) := Create(ps, name, uid, limit, private, nameFits); TableOk(t) && Queue(t, other) == Queue(ps, other)
  {
    FindKeeps(ps, name, uid, false, nameFits, other);
    var f := Find(ps, name, uid, false, nameFits);
    if f.At? && f.created {
      ReplaceQueue(f.table, f.k, Create(ps, name, uid, limit, private, nameFits).0[f.k], name, other);
    }
  }

  // ---------------------------------------------------------------- runs

  datatype Action =
    | Sends(name: string, uid: nat, msg: Option<Message>, limit: Option<int>, mem: Memory)
    | Receives(name: string, uid: nat, nameFits: bool)
    | Drops(name: string, uid: nat, purge: bool)
    | Creates(name: string, uid: nat, maybe: Option<int>, private: bool, nameFits: bool)

  function Next(ps: seq<Pipe>, a: Action): seq<Pipe> {
    match a
    case Sends(name, uid, msg, limit, mem) => Add(ps, name, uid, msg, limit, mem).0
    case Receives(name, uid, nameFits) => Get(ps, name, uid, nameFits).0
    case Drops(name, uid, purge) => Remove(ps, name, uid, purge).0
    case Creates(name, uid, limit, private, nameFits) => Create(ps, name, uid, limit, private, nameFits).0
  }

  /** What the step put into the pipe of that name, and took out of it to a reader or to nowhere */
  function In(ps: seq<Pipe>, a: Action, name: string): seq<Message> {
    if a.Sends? && a.name == name && a.msg.Some? && Add(ps, name, a.uid, a.msg, a.limit, a.mem).1.Yes? then [a.msg.value] else []
  }

  function Out(ps: seq<Pipe>, a: Action, name: string): seq<Message> {
    if a.Receives? && a.name == name then
      var m := Get(ps, name, a.uid, a.nameFits).1; if m.Some? then [m.value] else []
    else if a.Drops? && a.name == name && Remove(ps, name, a.uid, a.purge).1.Yes? then Queue(ps, name)
    else []
  }

  function Run(ps: seq<Pipe>, acts: seq<Action>): seq<Pipe>
    decreases |acts|
  {
    if acts == [] then ps else Run(Next(ps, acts[0]), acts[1..])
  }

  function Entered(ps: seq<Pipe>, acts: seq<Action>, name: string): seq<Message>
    decreases |acts|
  {
    if acts == [] then [] else In(ps, acts[0], name) + Entered(Next(ps, acts[0]), acts[1..], name)
  }

  function Left(ps: seq<Pipe>, acts: seq<Action>, name: string): seq<Message>
    decreases |acts|
  {
    if acts == [] then [] else Out(ps, acts[0], name) + Left(Next(ps, acts[0]), acts[1..], name)
  }

  lemma SendStep(ps: seq<Pipe>, a: Action, name: string)
    requires TableOk(ps) && a.Sends?
    ensures TableOk(Next(ps, a)) && Queue(ps, name) + In(ps, a, name) == Out(ps, a, name) + Queue(Next(ps, a), name)
  {
    AddQueue(ps, a.name, a.uid, a.msg, a.limit, a.mem, name);
  }

  lemma ReceiveStep(ps: seq<Pipe>, a: Action, name: string)
    requires TableOk(ps) && a.Receives?
    ensures TableOk(Next(ps, a)) && Queue(ps, name) + In(ps, a, name) == Out(ps, a, name) + Queue(Next(ps, a), name)
  {
    GetQueue(ps, a.name, a.uid, a.nameFits, name);
  }

  lemma DropStep(ps: seq<Pipe>, a: Action, name: string)
    requires TableOk(ps) && a.Drops?
    ensures TableOk(Next(ps, a)) && Queue(ps, name) + In(ps, a, name) == Out(ps, a, name) + Queue(Next(ps, a), name)
  {
    RemoveQueue(ps, a.name, a.uid, a.purge, name);
    assert Queue(ps, name) + [] == [] + Queue(ps, name);
  }

  lemma CreateStep(ps: seq<Pipe>, a: Action, name: string)
    requires TableOk(ps) && a.Creates?
    ensures TableOk(Next(ps, a)) && Queue(ps, name) + In(ps, a, name) == Out(ps, a, name) + Queue(Next(ps, a), name)
  {
    CreateQueue(ps, a.name, a.uid, a.maybe, a.private, a.nameFits, name);
    assert Queue(ps, name) + [] == [] + Queue(ps, name);
  }

  lemma StepQueue(ps: seq<Pipe>, a: Action, name: string)
    requires TableOk(ps)
    ensures TableOk(Next(ps, a)) && Queue(ps, name) + In(ps, a, name) == Out(ps, a, name) + Queue(Next(ps, a), name)
  {
    if a.Sends? {
      SendStep(ps, a, name);
    } else if a.Receives? {
      ReceiveStep(ps, a, name);
    } else if a.Drops? {
      DropStep(ps, a, name);
    } else {
      CreateStep(ps, a, name);
    }
  }

  lemma Chain(q: seq<Message>, i: seq<Message>, o: seq<Message>, r: seq<Message>, e: seq<Message>, l: seq<Message>, f: seq<Message>)
    requires q + i == o + r && r + e == l + f
    ensures q + (i + e) == (o + l) + f
  {
    assert q + (i + e) == (q + i) + e;
    assert (o + r) + e == o + (r + e);
    assert o + (l + f) == (o + l) + f;
  }

  /** Every pipe is first-in first-out in every run: what left it and what waits is what was there and what came, in order */
  lemma {:induction false} Fifo(ps: seq<Pipe>, acts: seq<Action>, name: string)
    requires TableOk(ps)
    ensures TableOk(Run(ps, acts))
    ensures Queue(ps, name) + Entered(ps, acts, name) == Left(ps, acts, name) + Queue(Run(ps, acts), name)
    decreases |acts|
  {
    if acts != [] {
      var t := Next(ps, acts[0]);
      StepQueue(ps, acts[0], name);
      Fifo(t, acts[1..], name);
      Chain(Queue(ps, name), In(ps, acts[0], name), Out(ps, acts[0], name), Queue(t, name),
            Entered(t, acts[1..], name), Left(t, acts[1..], name), Queue(Run(t, acts[1..]), name));
    }
  }

  /** The table of zero bytes the region starts with */
  function Zeroed(): seq<Pipe> {
    seq(MAX_PIPES, i => Pipe(false, false, "", None, [], 0, 0, 0))
  }

  /** From a zeroed table: every reachable table has true counters, and what was sent is what left plus what waits */
  lemma FromZero(acts: seq<Action>, name: string)
    ensures TableOk(Run(Zeroed(), acts))
    ensures Entered(Zeroed(), acts, name) == Left(Zeroed(), acts, name) + Queue(Run(Zeroed(), acts), name)
  {
    Fifo(Zeroed(), acts, name);
    assert Queue(Zeroed(), name) == [];
  }
}
