/**
 What each operation does to the pipes as their users know them: by name, with who
 may use them, whether they are registered, their limit and what waits in them.
 */
module PipeLaws {

  import opened Common
  import opened PipeSpec

  /** A pipe in use */
  datatype Entry = Entry(registered: bool, owner: Option<nat>, limit: int, queue: seq<Message>)

  function EntryOf(p: Pipe): Entry {
    Entry(p.registered, p.owner, p.limit, p.items)
  }

  /** The pipe of that name, if one is in use */
  function Look(ps: seq<Pipe>, name: string): Option<Entry> {
    var k := Named(ps, name); if k < |ps| then Some(EntryOf(ps[k])) else None
  }

  /** Room for one more pipe */
  predicate HasSlot(ps: seq<Pipe>) {
    exists k :: 0 <= k < |ps| && !ps[k].valid
  }

  predicate MayUse(e: Entry, uid: nat) {
    e.owner.None? || e.owner.value == uid
  }

  lemma SlotIff(ps: seq<Pipe>)
    ensures HasSlot(ps) <==> Unused(ps) < |ps|
  {
    if Unused(ps) < |ps| {
      assert !ps[Unused(ps)].valid;
    }
  }

  /** One slot of a name changed: the pipe of that name is the new one, or gone; all others stay */
  lemma LookReplace(ps: seq<Pipe>, k: nat, p: Pipe, name: string, other: string)
    requires TableOk(ps) && k < |ps| && ps[k].valid && ps[k].name == name && p.name == name
    ensures Look(ps, name) == Some(EntryOf(ps[k]))
    ensures Look(ps[k := p], other) == if other != name then Look(ps, other) else if p.valid then Some(EntryOf(p)) else None
  {
    Unique(ps, k, name);
    if other != name {
      LookElsewhere(ps, k, p, other);
    } else if p.valid {
      First(ps, k, p, name);
    } else {
      Gone(ps, k, p, name);
    }
  }

  lemma First(ps: seq<Pipe>, k: nat, p: Pipe, name: string)
    requires TableOk(ps) && k < |ps| && ps[k].valid && ps[k].name == name && p.name == name && p.valid
    ensures Named(ps[k := p], name) == k
  {
    var j := Named(ps[k := p], name);
    Unique(ps, k, name);
    assert ps[k := p][k] == p;
    SameAt(ps, k, p, j);
  }

  /** A slot that never bears the name does not matter to it */
  lemma LookElsewhere(ps: seq<Pipe>, k: nat, p: Pipe, other: string)
    requires k < |ps| && !(ps[k].valid && ps[k].name == other) && !(p.valid && p.name == other)
    ensures Look(ps[k := p], other) == Look(ps, other)
  {
    var i, j := Named(ps, other), Named(ps[k := p], other);
    SameAt(ps, k, p, i);
    SameAt(ps, k, p, j);
  }

  /** A new pipe in an unused slot */
  lemma LookOpened(ps: seq<Pipe>, name: string, other: string)
    requires TableOk(ps) && Named(ps, name) == |ps| && Unused(ps) < |ps|
    ensures var u := Unused(ps); var t := ps[u := Opened(ps[u], name)];
      && TableOk(t) && t[u].valid && t[u].name == name && EntryOf(t[u]) == Entry(false, None, -1, [])
      && Look(t, other) == if other == name then Some(Entry(false, None, -1, [])) else Look(ps, other)
  {
    var u := Unused(ps);
    var t := ps[u := Opened(ps[u], name)];
    Replace(ps, u, Opened(ps[u], name));
    if other == name {
      Unique(t, u, name);
    } else {
      LookElsewhere(ps, u, Opened(ps[u], name), other);
    }
  }

  /** An open pipe found, or a new one: the table, and the slot with what it shows */
  lemma LookFound(ps: seq<Pipe>, name: string, uid: nat, onlyCheck: bool, nameFits: bool, other: string)
    requires TableOk(ps)
    ensures var f, e := Find(ps, name, uid, onlyCheck, nameFits), Look(ps, name);
      && (f.Denied? <==> e.Some? && !MayUse(e.value, uid))
      && (f.At? <==> if e.Some? then MayUse(e.value, uid) else !onlyCheck && HasSlot(ps) && nameFits)
      && (f.At? ==> TableOk(f.table) && f.k < |f.table| && f.table[f.k].valid && f.table[f.k].name == name)
      && (f.At? ==> f.created == e.None? && EntryOf(f.table[f.k]) == if e.Some? then e.value else Entry(false, None, -1, []))
      && (f.At? && e.Some? ==> f.table == ps)
      && (f.At? ==> Look(f.table, other) == if other == name then Some(EntryOf(f.table[f.k])) else Look(ps, other))
  {
    SlotIff(ps);
    if Look(ps, name).None? && Unused(ps) < |ps| {
      LookOpened(ps, name, other);
    }
  }

  // ---------------------------------------------------------------- creating

  /**
   A pipe is created exactly when none of that name is in use, there is a slot and the
   name fits. It is registered, belongs to its creator if private, has the limit given,
   and is empty. No other pipe changes.
   */
  lemma CreateLaw(ps: seq<Pipe>, name: string, uid: nat, limit: Option<int>, private: bool, nameFits: bool, other: string)
    requires TableOk(ps)
    ensures var (t, out) := Create(ps, name, uid, limit, private, nameFits);
      && TableOk(t)
      && (out.Yes? <==> Look(ps, name).None? && HasSlot(ps) && nameFits)
      && (out.Refused? <==> Look(ps, name).Some?)
      && Look(t, other) ==
           if out.Yes? && other == name
           then Some(Entry(true, if private then Some(uid) else None, if limit.Some? then limit.value else -1, []))
           else Look(ps, other)
  {
    CreateQueue(ps, name, uid, limit, private, nameFits, name);
    LookFound(ps, name, uid, false, nameFits, other);
    var f := Find(ps, name, uid, false, nameFits);
    if f.At? && f.created {
      LookReplace(f.table, f.k, Create(ps, name, uid, limit, private, nameFits).0[f.k], name, other);
    }
  }

  /** Who may use a pipe, by what is seen of it */
  lemma PermittedIff(ps: seq<Pipe>, name: string, uid: nat)
    ensures Permitted(ps, name, uid) <==> Look(ps, name).None? || MayUse(Look(ps, name).value, uid)
  {
  }

  /** When a message can be sent, by what is seen of the pipe */
  lemma AdmitsIff(ps: seq<Pipe>, name: string, uid: nat, limit: Option<int>, mem: Memory)
    ensures Admits(ps, name, uid, limit, mem) <==>
      && mem.message && mem.item
      && match Look(ps, name)
         case Some(e) => MayUse(e, uid) && Room(InForce(e.limit, false, limit), |e.queue|)
         case None => HasSlot(ps) && mem.name && Room(InForce(-1, true, limit), 0)
  {
    SlotIff(ps);
  }

  /** A private pipe is open to its creator only, a public one to all; it takes messages unless its limit forbids */
  lemma CreatedFor(ps: seq<Pipe>, name: string, uid: nat, limit: Option<int>, private: bool, nameFits: bool, v: nat, mem: Memory)
    requires TableOk(ps) && Create(ps, name, uid, limit, private, nameFits).1.Yes? && mem.message && mem.item
    ensures var t := Create(ps, name, uid, limit, private, nameFits).0;
      && (Permitted(t, name, v) <==> !private || v == uid)
      && (Admits(t, name, uid, None, mem) <==> limit.None? || limit.value == -1 || limit.value > 0)
  {
    CreateLaw(ps, name, uid, limit, private, nameFits, name);
    var t := Create(ps, name, uid, limit, private, nameFits).0;
    PermittedIff(t, name, v);
    AdmitsIff(t, name, uid, None, mem);
  }

  /** Other names: who may use them stays, and so does what they admit, but for the slot that was taken */
  lemma CreatedBeside(ps: seq<Pipe>, name: string, uid: nat, limit: Option<int>, private: bool, nameFits: bool,
                      other: string, v: nat, lim: Option<int>, mem: Memory)
    requires TableOk(ps) && other != name
    ensures var t := Create(ps, name, uid, limit, private, nameFits).0;
      && (Permitted(t, other, v) <==> Permitted(ps, other, v))
      && (Admits(t, other, v, lim, mem) <==> Admits(ps, other, v, lim, mem) && (Look(ps, other).Some? || HasSlot(t)))
      && (HasSlot(t) ==> HasSlot(ps))
  {
    CreateLaw(ps, name, uid, limit, private, nameFits, other);
    var t := Create(ps, name, uid, limit, private, nameFits).0;
    FewerSlots(ps, name, uid, limit, private, nameFits);
    PermittedIff(ps, other, v);
    PermittedIff(t, other, v);
    AdmitsIff(ps, other, v, lim, mem);
    AdmitsIff(t, other, v, lim, mem);
  }

  lemma FewerSlots(ps: seq<Pipe>, name: string, uid: nat, limit: Option<int>, private: bool, nameFits: bool)
    requires TableOk(ps)
    ensures HasSlot(Create(ps, name, uid, limit, private, nameFits).0) ==> HasSlot(ps)
  {
    var f, t := Find(ps, name, uid, false, nameFits), Create(ps, name, uid, limit, private, nameFits).0;
    if HasSlot(t) {
      var k :| 0 <= k < |t| && !t[k].valid;
      assert f.At? && f.created ==> f.table[k] == ps[k] || k == f.k;
      assert !ps[k].valid;
    }
  }

  // ---------------------------------------------------------------- sending, receiving, removing

  /** What a message sent leaves: a pipe that existed keeps its owner and registration, a new one is public and not registered */
  function Sent(e: Option<Entry>, msg: Option<Message>, limit: Option<int>): Entry {
    var lim := InForce(if e.Some? then e.value.limit else -1, e.None?, limit);
    var queue := (if e.Some? then e.value.queue else []) + if msg.Some? then [msg.value] else [];
    if e.Some? then e.value.(limit := lim, queue := queue) else Entry(msg.None?, None, lim, queue)
  }

  /** A call on an existing pipe that is full or short of memory still raises its limit; a pipe made for nothing goes again */
  lemma AddLaw(ps: seq<Pipe>, name: string, uid: nat, msg: Option<Message>, limit: Option<int>, mem: Memory, other: string)
    requires TableOk(ps)
    ensures var (t, out), e := Add(ps, name, uid, msg, limit, mem), Look(ps, name);
      && TableOk(t)
      && (out.Refused? ==> t == ps)
      && (out.Yes? ==> Look(t, name) == Some(Sent(e, msg, limit)))
      && (out.No? ==> Look(t, name) == if e.Some? then Some(Sent(e, None, limit)) else None)
      && (other != name ==> Look(t, other) == Look(ps, other))
  {
    AddQueue(ps, name, uid, msg, limit, mem, name);
    LookFound(ps, name, uid, false, mem.name, other);
    LookFound(ps, name, uid, false, mem.name, name);
    var f := Find(ps, name, uid, false, mem.name);
    if f.At? {
      var p := AddedTo(f.table[f.k], f.created, msg, limit, mem).0;
      AddedEntry(f.table[f.k], f.created, msg, limit, mem);
      LookReplace(f.table, f.k, p, name, other);
      LookReplace(f.table, f.k, p, name, name);
    }
  }

  lemma AddedEntry(p: Pipe, created: bool, msg: Option<Message>, limit: Option<int>, mem: Memory)
    requires p.valid && (created ==> EntryOf(p) == Entry(false, None, -1, []))
    ensures var (q, out), e := AddedTo(p, created, msg, limit, mem), if created then None else Some(EntryOf(p));
      && q.name == p.name && (out.Yes? ==> q.valid && EntryOf(q) == Sent(e, msg, limit))
      && !out.Refused? && (out.No? ==> q.valid == !created && (!created ==> EntryOf(q) == Sent(e, None, limit)))
  {
    assert p.items + [] == p.items;
  }

  /**
   Receiving takes the first message. The pipe stays in use as long as it is registered
   or holds something; asking for a pipe that is not there opens one.
   */
  lemma GetLaw(ps: seq<Pipe>, name: string, uid: nat, nameFits: bool, other: string)
    requires TableOk(ps)
    ensures var (t, m, out), e := Get(ps, name, uid, nameFits), Look(ps, name);
      && TableOk(t)
      && (e.Some? && !MayUse(e.value, uid) ==> t == ps && out.Refused? && m.None?)
      && (e.Some? && MayUse(e.value, uid) && e.value.queue == [] ==> t == ps && out.No? && m.None?)
      && (e.Some? && MayUse(e.value, uid) && e.value.queue != [] ==>
            && out.Yes? && m == Some(e.value.queue[0])
            && Look(t, name) == if e.value.registered || |e.value.queue| > 1 then Some(e.value.(queue := e.value.queue[1..])) else None)
      && (e.None? ==> out.No? && m.None? && Look(t, name) == if HasSlot(ps) && nameFits then Some(Entry(false, None, -1, [])) else None)
      && (other != name ==> Look(t, other) == Look(ps, other))
  {
    GetQueue(ps, name, uid, nameFits, name);
    LookFound(ps, name, uid, false, nameFits, other);
    LookFound(ps, name, uid, false, nameFits, name);
    var f := Find(ps, name, uid, false, nameFits);
    if f.At? && f.table[f.k].items != [] {
      LookReplace(f.table, f.k, Popped(f.table[f.k]), name, other);
      LookReplace(f.table, f.k, Popped(f.table[f.k]), name, name);
    }
  }

  /** Removing ends the pipe; purging empties it, and ends it only if it is not registered */
  lemma RemoveLaw(ps: seq<Pipe>, name: string, uid: nat, purge: bool, other: string)
    requires TableOk(ps)
    ensures var (t, out), e := Remove(ps, name, uid, purge), Look(ps, name);
      && TableOk(t)
      && (out.Yes? <==> e.Some? && MayUse(e.value, uid)) && (out.Refused? <==> e.Some? && !MayUse(e.value, uid))
      && (!out.Yes? ==> t == ps)
      && (out.Yes? ==> Look(t, name) == if purge && e.value.registered then Some(e.value.(queue := [])) else None)
      && (other != name ==> Look(t, other) == Look(ps, other))
  {
    RemoveQueue(ps, name, uid, purge, name);
    LookFound(ps, name, uid, true, true, other);
    LookFound(ps, name, uid, true, true, name);
    var f := Find(ps, name, uid, true, true);
    if f.At? {
      var p := ps[f.k].(items := [], size := 0, count := 0, valid := purge && ps[f.k].registered);
      LookReplace(ps, f.k, p, name, other);
      LookReplace(ps, f.k, p, name, name);
    }
  }
}
