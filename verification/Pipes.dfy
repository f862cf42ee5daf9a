/** The table of pipes as an array that the operations update; each takes the step PipeSpec gives it. */
module Pipes {

  import opened Common
  import opened PipeSpec
  import opened PipeLaws

  class Table {
    const pipes: array<Pipe>

    ghost predicate Valid()
      reads pipes
    {
      TableOk(pipes[..])
    }

    constructor ()
      ensures Valid() && pipes[..] == Zeroed() && fresh(pipes)
    {
      pipes := new Pipe[MAX_PIPES](i => Pipe(false, false, "", None, [], 0, 0, 0));
      new;
      assert pipes[..] == Zeroed();
    }

    /** find_pipe; k is the table's length when there is no pipe to give */
    method FindPipe(name: string, uid: nat, onlyCheck: bool, nameFits: bool) returns (k: nat, created: bool, denied: bool)
      modifies pipes
      ensures denied ==> Find(old(pipes[..]), name, uid, onlyCheck, nameFits) == Denied
      ensures !denied && k == pipes.Length ==> Find(old(pipes[..]), name, uid, onlyCheck, nameFits) == Missing
      ensures !denied && k != pipes.Length ==> Find(old(pipes[..]), name, uid, onlyCheck, nameFits) == At(k, created, pipes[..])
      ensures denied || k == pipes.Length ==> pipes[..] == old(pipes[..])
    {
      created, denied, k := false, false, 0;
      while k < pipes.Length && !(pipes[k].valid && pipes[k].name == name)
        invariant k <= pipes.Length && forall j :: 0 <= j < k ==> !(pipes[j].valid && pipes[j].name == name)
      {
        k := k + 1;
      }
      assert k == Named(pipes[..], name);
      if k < pipes.Length {
        denied := pipes[k].owner.Some? && pipes[k].owner.value != uid;
      } else if !onlyCheck {
        k, created := OpenPipe(name, nameFits);
      }
    }

    /** The second half of find_pipe: a new pipe in the first slot not in use */
    method OpenPipe(name: string, nameFits: bool) returns (k: nat, created: bool)
      modifies pipes
      ensures var u := Unused(old(pipes[..]));
        if created then k == u < pipes.Length && nameFits && pipes[..] == old(pipes[..])[u := Opened(old(pipes[..])[u], name)]
        else k == pipes.Length && pipes[..] == old(pipes[..]) && (u == pipes.Length || !nameFits)
    {
      k, created := 0, false;
      while k < pipes.Length && pipes[k].valid
        invariant k <= pipes.Length && forall j :: 0 <= j < k ==> pipes[j].valid
      {
        k := k + 1;
      }
      assert k == Unused(pipes[..]);
      if k < pipes.Length && nameFits {
        pipes[k] := pipes[k].(valid := true, registered := false, name := name, owner := None, count := 0, limit := -1);
        created := true;
      } else {
        k := pipes.Length;
      }
    }

    /** new_last */
    method NewLast(k: nat, m: Message, itemFits: bool) returns (ok: bool)
      requires k < pipes.Length
      modifies pipes
      ensures ok <==> !Full(old(pipes[k])) && itemFits
      ensures pipes[..] == if ok then old(pipes[..])[k := Appended(old(pipes[k]), m).(size := old(pipes[k]).size)] else old(pipes[..])
    {
      var p := pipes[k];
      if (p.count >= p.limit && p.limit != -1) || !itemFits {
        return false;
      }
      if p.items == [] {
        assert p.items + [m] == [m];
        pipes[k] := p.(items := [m], count := 1);
      } else {
        pipes[k] := p.(items := p.items + [m], count := p.count + 1);
      }
      assert pipes[..] == old(pipes[..])[k := pipes[k]];
      ok := true;
    }

    /** add_to_pipe */
    method AddToPipe(name: string, uid: nat, msg: Option<Message>, limit: Option<int>, mem: Memory) returns (out: Outcome)
      requires Valid()
      modifies pipes
      ensures Valid() && (pipes[..], out) == Add(old(pipes[..]), name, uid, msg, limit, mem)
    {
      AddQueue(pipes[..], name, uid, msg, limit, mem, name);
      var k, created, denied := FindPipe(name, uid, false, mem.name);
      if denied {
        return Refused;
      }
      if k == pipes.Length {
        return No;
      }
      out := Store(k, created, msg, limit, mem);
    }

    method Store(k: nat, created: bool, msg: Option<Message>, limit: Option<int>, mem: Memory) returns (out: Outcome)
      requires k < pipes.Length
      modifies pipes
      ensures out == AddedTo(old(pipes[k]), created, msg, limit, mem).1
      ensures pipes[..] == old(pipes[..])[k := AddedTo(old(pipes[k]), created, msg, limit, mem).0]
    {
      if created {
        pipes[k] := pipes[k].(registered := msg.None?);
      }
      if limit.Some? && (created || pipes[k].limit < limit.value) {
        pipes[k] := pipes[k].(limit := limit.value);
      }
      if msg.None? {
        return Yes;
      }
      var ok := false;
      if mem.message {
        ok := NewLast(k, msg.value, mem.item);
      }
      if ok {
        pipes[k] := pipes[k].(size := pipes[k].size + |msg.value.bytes|);
        return Yes;
      }
      if created {
        pipes[k] := pipes[k].(valid := false);
      }
      out := No;
    }

    /** The first message taken out of pipe k, and the size brought up to date */
    method TakeFirst(k: nat) returns (m: Message)
      requires k < pipes.Length && pipes[k].items != []
      modifies pipes
      ensures m == old(pipes[k]).items[0] && pipes[..] == old(pipes[..])[k := Popped(old(pipes[k]))]
    {
      m := RemoveFirst(k);
      ghost var p := pipes[k];
      assert pipes[..][k] == p;
      pipes[k] := pipes[k].(size := pipes[k].size - |m.bytes|);
      assert pipes[..] == old(pipes[..])[k := pipes[k]];
    }

    /** remove_first of a pipe that holds something */
    method RemoveFirst(k: nat) returns (m: Message)
      requires k < pipes.Length && pipes[k].items != []
      modifies pipes
      ensures m == old(pipes[k]).items[0]
      ensures pipes[..] == old(pipes[..])[k := Popped(old(pipes[k])).(size := old(pipes[k]).size)]
    {
      var p := pipes[k];
      m := p.items[0];
      pipes[k] := p.(count := p.count - 1, items := p.items[1..]);
      if pipes[k].items == [] && !pipes[k].registered {
        pipes[k] := pipes[k].(valid := false);
      }
    }

    /** get_from_pipe */
    method GetFromPipe(name: string, uid: nat, nameFits: bool) returns (r: Option<Message>, out: Outcome)
      requires Valid()
      modifies pipes
      ensures Valid() && (pipes[..], r, out) == Get(old(pipes[..]), name, uid, nameFits)
    {
      GetQueue(pipes[..], name, uid, nameFits, name);
      var k, created, denied := FindPipe(name, uid, false, nameFits);
      if denied {
        return None, Refused;
      }
      if k == pipes.Length || created || pipes[k].items == [] {
        return None, No;
      }
      var m := TakeFirst(k);
      r, out := Some(m), Yes;
    }

    /** dbms_pipe_create_pipe */
    method CreatePipe(name: string, uid: nat, limit: Option<int>, private: bool, nameFits: bool) returns (out: Outcome)
      requires Valid()
      modifies pipes
      ensures Valid() && (pipes[..], out) == Create(old(pipes[..]), name, uid, limit, private, nameFits)
      ensures out.Yes? <==> Look(old(pipes[..]), name).None? && HasSlot(old(pipes[..])) && nameFits
      ensures out.Yes? ==>
        Look(pipes[..], name) == Some(Entry(true, if private then Some(uid) else None, if limit.Some? then limit.value else -1, []))
      ensures !out.Yes? ==> Look(pipes[..], name) == Look(old(pipes[..]), name)
    {
      CreateLaw(pipes[..], name, uid, limit, private, nameFits, name);
      var k, created, denied := FindPipe(name, uid, false, nameFits);
      if denied {
        return Refused;
      }
      if k == pipes.Length {
        return No;
      }
      if !created {
        return Refused;
      }
      Register(k, uid, limit, private);
      out := Yes;
    }

    method Register(k: nat, uid: nat, limit: Option<int>, private: bool)
      requires k < pipes.Length && pipes[k].owner.None?
      modifies pipes
      ensures pipes[..] == old(pipes[..])[k := old(pipes[k]).(owner := if private then Some(uid) else None,
                                                             limit := if limit.Some? then limit.value else -1, registered := true)]
    {
      if private {
        pipes[k] := pipes[k].(owner := Some(uid));
      }
      pipes[k] := pipes[k].(limit := if limit.Some? then limit.value else -1);
      pipes[k] := pipes[k].(registered := true);
      assert pipes[..] == old(pipes[..])[k := pipes[k]];
    }

    /** remove_pipe */
    method RemovePipe(name: string, uid: nat, purge: bool) returns (out: Outcome)
      requires Valid()
      modifies pipes
      ensures Valid() && (pipes[..], out) == Remove(old(pipes[..]), name, uid, purge)
    {
      RemoveQueue(pipes[..], name, uid, purge, name);
      var k, created, denied := FindPipe(name, uid, true, true);
      if denied {
        return Refused;
      }
      if k == pipes.Length {
        return No;
      }
      Empty(k, purge);
      out := Yes;
    }

    method Empty(k: nat, purge: bool)
      requires k < pipes.Length && pipes[k].valid
      modifies pipes
      ensures var p := old(pipes[k]);
        pipes[..] == old(pipes[..])[k := p.(items := [], size := 0, count := 0, valid := purge && p.registered)]
    {
      pipes[k] := pipes[k].(items := [], size := 0, count := 0);
      if !(purge && pipes[k].registered) {
        pipes[k] := pipes[k].(valid := false);
      }
    }
  }
}
