/** The command pipeline of the control channel. Every command that is
    written is also put in a queue of handlers; each reply from the server
    goes to the handler at the head. A sync command writes nothing: it
    resolves once every command issued before it has its final reply. */
module Pipeline {
  import opened Wrappers
  import opened Text
  import opened Replies
  import opened SecurityContext
  import opened Encoding

  // ---------------------------------------------------------------------
  // Resolution of one command

  /** What a command's future is resolved with: its final reply, nothing
      (a sync command), or the error its handler threw. */
  datatype Outcome = Value(reply: Reply) | NoValue | Failed

  datatype Bell = Pending | Rung(outcome: Outcome)

  /** A future keeps the first outcome it is rung with. */
  function Ring(b: Bell, o: Outcome): (b': Bell)
    ensures b'.Rung?
    ensures b.Rung? ==> b' == b
  {
    if b.Pending? then Rung(o) else b
  }

  /** internalHandle given one delivery: handle() runs and, when it throws,
      the future is rung with the error; then a sync command is rung with no
      value and any other command with the reply, unless it is preliminary. */
  function Handled(b: Bell, isSync: bool, threw: bool, r: Option<Reply>): (h: Bell)
    requires isSync || r.Some?
    ensures b.Rung? ==> h == b
    ensures b.Pending? && threw ==> h == Rung(Failed)
    ensures h.Pending? <==> b.Pending? && !threw && !isSync && IsPreliminary(r.value)
    ensures b.Pending? && !threw && isSync ==> h == Rung(NoValue)
    ensures b.Pending? && !threw && !isSync && !IsPreliminary(r.value) ==> h == Rung(Value(r.value))
  {
    var b1 := if threw then Ring(b, Failed) else b;
    if isSync then Ring(b1, NoValue)
    else if !IsPreliminary(r.value) then Ring(b1, Value(r.value))
    else b1
  }

  /** A preliminary reply followed by a final one: handle() is called twice
      and the future is resolved once, with the final reply. */
  lemma PreliminaryThenFinal(p: Reply, f: Reply)
    requires IsPreliminary(p) && !IsPreliminary(f)
    ensures Handled(Pending, false, false, Some(p)) == Pending
    ensures Handled(Handled(Pending, false, false, Some(p)), false, false, Some(f)) == Rung(Value(f))
  {
  }

  /** A command of the pipeline. The handler itself is not modelled beyond
      whether it throws on a delivery. */
  class Command {
    /** The command verb, or None for a sync command. */
    const cmd: Option<Bytes>
    const args: seq<Bytes>
    const isSync: bool
    /** Whether handle() throws when given this delivery. */
    const throwsOn: Option<Reply> -> bool
    var bell: Bell

    constructor (cmd: Option<Bytes>, args: seq<Bytes>, throwsOn: Option<Reply> -> bool)
      ensures this.cmd == cmd && this.args == args && this.throwsOn == throwsOn
      ensures isSync <==> cmd.None?
      ensures bell == Pending
    {
      this.cmd := cmd;
      this.args := args;
      this.throwsOn := throwsOn;
      isSync := cmd.None?;
      bell := Pending;
    }

    /** internalHandle. The channel passes no reply only to sync commands. */
    method InternalHandle(r: Option<Reply>)
      requires isSync || r.Some?
      modifies this
      ensures bell == Handled(old(bell), isSync, throwsOn(r), r)
    {
      var threw := throwsOn(r);
      if threw {
        bell := Ring(bell, Failed);
      }
      if isSync {
        bell := Ring(bell, NoValue);
      } else if !IsPreliminary(r.value) {
        bell := Ring(bell, Value(r.value));
      }
    }
  }

  // ---------------------------------------------------------------------
  // The queue of handlers, as values

  /** One call of internalHandle: the command and the reply it was given. */
  datatype Delivery = Delivery(cmd: Command, reply: Option<Reply>)

  predicate Deliverable(d: Delivery) {
    d.cmd.isSync || d.reply.Some?
  }

  predicate AllDeliverable(ds: seq<Delivery>) {
    forall k :: 0 <= k < |ds| ==> Deliverable(ds[k])
  }

  function Deliver(d: Delivery, b: Bell): Bell
    requires Deliverable(d)
  {
    Handled(b, d.cmd.isSync, d.cmd.throwsOn(d.reply), d.reply)
  }

  /** A delivery after which the command is never called again. */
  predicate Final(d: Delivery) {
    d.reply.None? || !IsPreliminary(d.reply.value)
  }

  /** The commands that have left the queue, in the order they left it. */
  function Finals(ds: seq<Delivery>): seq<Command>
    decreases |ds|
  {
    if ds == [] then [] else (if Final(ds[0]) then [ds[0].cmd] else []) + Finals(ds[1..])
  }

  lemma {:induction false} FinalsAppend(a: seq<Delivery>, b: seq<Delivery>)
    ensures Finals(a + b) == Finals(a) + Finals(b)
    decreases |a|
  {
    if a == [] {
      assert a + b == b;
    } else {
      assert (a + b)[1..] == a[1..] + b;
      FinalsAppend(a[1..], b);
    }
  }

  predicate HeadNonSync(q: seq<Command>) {
    q == [] || !q[0].isSync
  }

  /** q[i], as a term of its own, so that Distinct is only instantiated
      where a proof asks for it. */
  function At(q: seq<Command>, i: nat): Command
    requires i < |q|
  {
    q[i]
  }

  /** No command is queued twice. */
  predicate Distinct(q: seq<Command>) {
    forall i: nat, j: nat :: i < j < |q| ==> At(q, i) != At(q, j)
  }

  /** The number of sync commands at the front of q. */
  function LeadingSyncs(q: seq<Command>): (n: nat)
    ensures n <= |q|
    ensures forall i :: 0 <= i < n ==> q[i].isSync
    ensures n < |q| ==> !q[n].isSync
    decreases |q|
  {
    if q == [] || !q[0].isSync then 0 else 1 + LeadingSyncs(q[1..])
  }

  function SyncDeliveries(ss: seq<Command>): (ds: seq<Delivery>)
    ensures |ds| == |ss| && forall i :: 0 <= i < |ss| ==> ds[i] == Delivery(ss[i], None)
  {
    seq(|ss|, i requires 0 <= i < |ss| => Delivery(ss[i], None))
  }

  lemma {:induction false} FinalsOfSyncs(ss: seq<Command>)
    ensures Finals(SyncDeliveries(ss)) == ss
    decreases |ss|
  {
    if ss != [] {
      FinalsOfSyncs(ss[1..]);
      assert SyncDeliveries(ss)[1..] == SyncDeliveries(ss[1..]);
    }
  }

  /** appendHandler: a sync command meeting an empty queue is handled at
      once and not queued; every other command goes to the tail. */
  function Admit(q: seq<Command>, c: Command): (seq<Command>, seq<Delivery>)
  {
    if c.isSync && q == [] then ([], [Delivery(c, None)]) else (q + [c], [])
  }

  /** Admitting keeps commands in issue order, the head non-sync and the
      queue free of repeats; a command is handled at once exactly when it is
      a sync meeting an empty queue. */
  lemma AdmitInOrder(q: seq<Command>, c: Command)
    requires HeadNonSync(q) && Distinct(q) && c !in q
    ensures Finals(Admit(q, c).1) + Admit(q, c).0 == q + [c]
    ensures HeadNonSync(Admit(q, c).0) && Distinct(Admit(q, c).0)
    ensures Admit(q, c).1 != [] <==> c.isSync && q == []
    ensures AllDeliverable(Admit(q, c).1)
  {
    if !(c.isSync && q == []) {
      assert Finals([]) == [];
      var q' := q + [c];
      forall i: nat, j: nat | i < j < |q'| ensures At(q', i) != At(q', j) {
        if j < |q| {
          assert At(q', i) == At(q, i) && At(q', j) == At(q, j);
        } else {
          assert At(q', i) == q[i];
        }
      }
    }
  }

  /** feedHandler on the queue: a preliminary reply goes to the head, which
      stays; any other reply goes to the head, which is removed together with
      the sync commands right behind it, and those are then handled without a
      reply. With an empty queue the call fails. */
  function Dispatch(q: seq<Command>, r: Reply): (res: Option<(seq<Command>, seq<Delivery>)>)
    ensures res.None? <==> q == []
    ensures res.Some? ==> 1 <= |res.value.1| <= |q|
    ensures res.Some? ==> forall k :: 0 <= k < |res.value.1| ==>
      res.value.1[k] == Delivery(q[k], if k == 0 then Some(r) else None)
  {
    if q == [] then None
    else if IsPreliminary(r) then Some((q, [Delivery(q[0], Some(r))]))
    else
      var n := LeadingSyncs(q[1..]);
      Some((q[1 + n..], [Delivery(q[0], Some(r))] + SyncDeliveries(q[1..1 + n])))
  }

  /** No command is lost or reordered: the commands that leave the queue are
      its first ones, in order, and the rest stays. A preliminary reply
      removes nothing. */
  lemma DispatchInOrder(q: seq<Command>, r: Reply)
    requires q != []
    ensures var (q', ds) := Dispatch(q, r).value; Finals(ds) + q' == q
    ensures IsPreliminary(r) ==> Dispatch(q, r).value.0 == q
  {
    var (q', ds) := Dispatch(q, r).value;
    if IsPreliminary(r) {
      assert ds == [Delivery(q[0], Some(r))];
      assert Finals(ds) == [] + Finals([]);
    } else {
      var n := LeadingSyncs(q[1..]);
      var head := [Delivery(q[0], Some(r))];
      var ss := q[1..1 + n];
      FinalsAppend(head, SyncDeliveries(ss));
      FinalsOfSyncs(ss);
      assert Finals(head) == [q[0]] + Finals([]);
      assert [q[0]] + ss + q[1 + n..] == q;
    }
  }

  /** Dispatching keeps the head non-sync and the queue free of repeats; a
      final reply leaves a non-sync head whatever came before, and every
      delivery it makes can be handled. */
  lemma DispatchKeepsShape(q: seq<Command>, r: Reply)
    requires q != [] && HeadNonSync(q) && Distinct(q)
    ensures HeadNonSync(Dispatch(q, r).value.0) && Distinct(Dispatch(q, r).value.0)
    ensures AllDeliverable(Dispatch(q, r).value.1)
    ensures !IsPreliminary(r) ==> |Dispatch(q, r).value.1| == 1 + LeadingSyncs(q[1..])
  {
    var ds := Dispatch(q, r).value.1;
    forall k | 0 <= k < |ds| ensures Deliverable(ds[k]) {
      if k > 0 {
        assert ds[k] == Delivery(q[1..][k - 1], None);
      }
    }
    if !IsPreliminary(r) {
      var n := LeadingSyncs(q[1..]);
      var q' := q[1 + n..];
      forall i: nat, j: nat | i < j < |q'| ensures At(q', i) != At(q', j) {
        assert At(q', i) == At(q, 1 + n + i) && At(q', j) == At(q, 1 + n + j);
      }
    }
  }

  /** Dispatching keeps the channel's invariant: every command issued has
      either left the queue, in order, or is still in it. */
  lemma DispatchValid(issued: seq<Command>, log: seq<Delivery>, q: seq<Command>, r: Reply)
    requires q != [] && HeadNonSync(q) && Distinct(q) && issued == Finals(log) + q
    ensures issued == Finals(log + Dispatch(q, r).value.1) + Dispatch(q, r).value.0
    ensures HeadNonSync(Dispatch(q, r).value.0) && Distinct(Dispatch(q, r).value.0)
    ensures AllDeliverable(Dispatch(q, r).value.1)
  {
    var (q', ds) := Dispatch(q, r).value;
    assert Finals(ds) + q' == q by {
      DispatchInOrder(q, r);
    }
    assert Finals(log + ds) == Finals(log) + Finals(ds) by {
      FinalsAppend(log, ds);
    }
    DispatchKeepsShape(q, r);
  }

  /** The syncs feedHandler pops are the deliveries of Dispatch after the
      head, and they are exactly the queue's second to |ds|-th commands. */
  lemma DrainShape(q: seq<Command>, r: Reply, syncs: seq<Command>)
    requires q != [] && Distinct(q)
    requires IsPreliminary(r) ==> syncs == []
    requires !IsPreliminary(r) ==> syncs == q[1..1 + LeadingSyncs(q[1..])]
    ensures Dispatch(q, r).value.1 == [Delivery(q[0], Some(r))] + SyncDeliveries(syncs)
    ensures Distinct(syncs) && q[0] !in syncs
    ensures forall i :: 0 <= i < |syncs| ==> syncs[i].isSync && syncs[i] == q[1 + i]
    ensures forall k :: 1 + |syncs| <= k < |q| ==> q[k] !in syncs && q[k] != q[0]
  {
    forall i: nat, j: nat | i < j < |syncs| ensures At(syncs, i) != At(syncs, j) {
      assert At(syncs, i) == At(q, 1 + i) && At(syncs, j) == At(q, 1 + j);
    }
    forall k | 1 + |syncs| <= k < |q| ensures q[k] !in syncs && q[k] != q[0] {
      assert At(q, 0) != At(q, k);
      forall i | 0 <= i < |syncs| ensures syncs[i] != q[k] {
        assert syncs[i] == At(q, 1 + i);
        assert At(q, 1 + i) != At(q, k);
      }
    }
    forall i | 0 <= i < |syncs| ensures syncs[i] != q[0] {
      assert syncs[i] == At(q, 1 + i) && At(q, 0) != At(q, 1 + i);
    }
  }

  /** A sync command between two ordinary ones is a barrier: the first
      one's final reply resolves it, and the next command waits. */
  lemma SyncBarrier(a: Command, s: Command, b: Command, r: Reply)
    requires !a.isSync && s.isSync && !b.isSync && !IsPreliminary(r)
    ensures Dispatch([a, s, b], r) == Some(([b], [Delivery(a, Some(r)), Delivery(s, None)]))
  {
    var q := [a, s, b];
    assert q[1..] == [s, b] && [s, b][1..] == [b];
    assert LeadingSyncs(q[1..]) == 1;
    assert q[1..2] == [s] && q[2..] == [b];
    assert SyncDeliveries([s]) == [Delivery(s, None)];
    assert Dispatch(q, r) == Some((q[2..], [Delivery(a, Some(r))] + SyncDeliveries(q[1..2])));
    assert [Delivery(a, Some(r))] + SyncDeliveries(q[1..2]) == [Delivery(a, Some(r)), Delivery(s, None)];
  }

  /** New futures of the queued commands after a set of deliveries to the
      first of them. */
  function Rebell(bs: seq<Bell>, ds: seq<Delivery>): (bs': seq<Bell>)
    requires |ds| <= |bs| && AllDeliverable(ds)
    ensures |bs'| == |bs|
  {
    seq(|bs|, k requires 0 <= k < |bs| => if k < |ds| then Deliver(ds[k], bs[k]) else bs[k])
  }

  function Bells(q: seq<Command>): (bs: seq<Bell>)
    reads q
    ensures |bs| == |q| && forall k :: 0 <= k < |q| ==> bs[k] == q[k].bell
  {
    seq(|q|, k requires 0 <= k < |q| reads q => q[k].bell)
  }

  /** What the channel writes for a command: nothing for a sync command, or
      for a text that fails to be protected; otherwise the encoded text. */
  function Written(sec: Option<Security>, codec: Codec, cmd: Option<Bytes>, args: seq<Bytes>): seq<Bytes>
  {
    if cmd.None? then []
    else
      match EncodeCommand(sec, codec, CommandText(cmd.value, args))
      case None => []
      case Some(b) => [b]
  }

  // ---------------------------------------------------------------------
  // The channel

  class Channel {
    /** The handlers deque. */
    var queue: seq<Command>
    /** Everything written to the server, one entry per command. */
    var wire: seq<Bytes>
    /** Every call of internalHandle, in order. */
    var log: seq<Delivery>
    var welcome: Option<Reply>
    var security: Option<Security>
    const codec: Codec
    /** Every command issued, in issue order. */
    ghost var issued: seq<Command>

    ghost predicate Valid()
      reads this
    {
      && HeadNonSync(queue)
      && Distinct(queue)
      && issued == Finals(log) + queue
    }

    constructor (codec: Codec)
      ensures Valid() && this.codec == codec
      ensures queue == [] && wire == [] && log == [] && issued == []
      ensures welcome.None? && security.None?
    {
      queue := [];
      wire := [];
      log := [];
      welcome := None;
      security := None;
      this.codec := codec;
      issued := [];
    }

    /** The Command constructor: the command is appended to the handlers
      (or, as a sync meeting an empty queue, handled at once), and then, when
      it is not a sync, its text is written. */
    method Issue(cmd: Option<Bytes>, args: seq<Bytes>, throwsOn: Option<Reply> -> bool) returns (c: Command)
      requires Valid()
      modifies this
      ensures Valid() && fresh(c)
      ensures c.cmd == cmd && c.args == args && c.throwsOn == throwsOn && (c.isSync <==> cmd.None?)
      ensures issued == old(issued) + [c]
      ensures queue == Admit(old(queue), c).0 && log == old(log) + Admit(old(queue), c).1
      ensures c.bell == if c.isSync && old(queue) == [] then Handled(Pending, true, throwsOn(None), None) else Pending
      ensures wire == old(wire) + Written(security, codec, cmd, args)
      ensures welcome == old(welcome) && security == old(security)
    {
      c := new Command(cmd, args, throwsOn);
      AdmitInOrder(queue, c);
      FinalsAppend(log, Admit(queue, c).1);
      if c.isSync && queue == [] {
        c.InternalHandle(None);
        log := log + [Delivery(c, None)];
      } else {
        queue := queue + [c];
      }
      issued := issued + [c];
      if cmd.Some? {
        var text := BuildCommandText(cmd.value, args);
        var out := EncodeCommand(security, codec, text);
        if out.Some? {
          wire := wire + [out.value];
        }
      }
    }

    /** feedHandler: the queue is changed first, then the head's handler
      runs, then those of the sync commands removed behind it. With an empty
      queue the call fails and changes nothing. */
    method FeedHandler(r: Reply) returns (ok: bool)
      requires Valid()
      modifies this, queue
      ensures Valid()
      ensures ok <==> old(queue) != []
      ensures !ok ==> queue == old(queue) && log == old(log) && Bells(old(queue)) == old(Bells(queue))
      ensures ok ==> queue == Dispatch(old(queue), r).value.0
      ensures ok ==> log == old(log) + Dispatch(old(queue), r).value.1
      ensures ok ==> Bells(old(queue)) == Rebell(old(Bells(queue)), Dispatch(old(queue), r).value.1)
      ensures unchanged(`wire, `welcome, `security, `issued)
    {
      if queue == [] {
        return false;
      }
      ok := true;
      ghost var q0 := queue;
      ghost var bs0 := Bells(queue);
      ghost var ds := Dispatch(q0, r).value.1;
      DispatchValid(issued, log, q0, r);
      var handler, syncs := TakeFinished(r);
      DrainShape(q0, r, syncs);
      Notify(q0, ds, handler, r, syncs);
    }

    /** The synchronized part of feedHandler: peek at the head for a
      preliminary reply; otherwise pop it and, in the do-while loop, the sync
      commands behind it. */
    method TakeFinished(r: Reply) returns (handler: Command, syncs: seq<Command>)
      requires queue != []
      modifies this`queue
      ensures handler == old(queue)[0]
      ensures IsPreliminary(r) ==> syncs == [] && queue == old(queue)
      ensures !IsPreliminary(r) ==> syncs == old(queue)[1..1 + LeadingSyncs(old(queue)[1..])]
      ensures queue == Dispatch(old(queue), r).value.0
    {
      handler := queue[0];
      syncs := [];
      if !IsPreliminary(r) {
        queue := queue[1..];
        while queue != [] && queue[0].isSync
          invariant old(queue)[1..] == syncs + queue
          invariant forall i :: 0 <= i < |syncs| ==> syncs[i].isSync
          decreases |queue|
        {
          syncs := syncs + [queue[0]];
          queue := queue[1..];
        }
        LeadingSyncsOf(old(queue)[1..], syncs, queue);
        assert syncs == old(queue)[1..][..|syncs|];
      }
    }

    /** The handler calls of feedHandler: the head with the reply, then each
      removed sync command without one, in queue order. q is the queue before
      the reply and ds the deliveries Dispatch gives for it. */
    method Notify(ghost q: seq<Command>, ghost ds: seq<Delivery>, handler: Command, r: Reply, syncs: seq<Command>)
      requires q != [] && handler == q[0] && !handler.isSync && 1 + |syncs| <= |q|
      requires ds == [Delivery(handler, Some(r))] + SyncDeliveries(syncs)
      requires Distinct(syncs) && handler !in syncs
      requires forall i :: 0 <= i < |syncs| ==> syncs[i].isSync && syncs[i] == q[1 + i]
      requires forall k :: 1 + |syncs| <= k < |q| ==> q[k] !in syncs && q[k] != q[0]
      modifies this`log, handler, syncs
      ensures |ds| <= |q| && AllDeliverable(ds)
      ensures log == old(log) + ds
      ensures Bells(q) == Rebell(old(Bells(q)), ds)
    {
      ghost var bs0 := Bells(q);
      assert AllDeliverable(ds) by {
        forall k | 0 <= k < |ds| ensures Deliverable(ds[k]) {
          if k > 0 {
            assert ds[k] == Delivery(syncs[k - 1], None);
          }
        }
      }
      handler.InternalHandle(Some(r));
      ghost var handled := handler.bell;
      log := log + [Delivery(handler, Some(r))];
      RunSyncs(syncs);
      assert log == old(log) + ds;
      assert handler.bell == handled;
      forall k | 0 <= k < |q| ensures q[k].bell == Rebell(bs0, ds)[k] {
        if k == 0 {
          assert ds[0] == Delivery(handler, Some(r));
        } else if k < |ds| {
          var s := syncs[k - 1];
          assert q[k] == s && s != handler;
          assert ds[k] == Delivery(s, None);
        } else {
          assert q[k] !in syncs && q[k] != handler;
        }
      }
    }

    /** Handle each removed sync command, without a reply, in queue order. */
    method RunSyncs(syncs: seq<Command>)
      requires Distinct(syncs) && forall i :: 0 <= i < |syncs| ==> syncs[i].isSync
      modifies this`log, syncs
      ensures log == old(log) + SyncDeliveries(syncs)
      ensures forall i :: 0 <= i < |syncs| ==>
        syncs[i].bell == Handled(old(syncs[i].bell), true, syncs[i].throwsOn(None), None)
    {
      var j := 0;
      while j < |syncs|
        invariant 0 <= j <= |syncs|
        invariant log == old(log) + SyncDeliveries(syncs[..j])
        invariant forall i :: 0 <= i < j ==>
          syncs[i].bell == Handled(old(syncs[i].bell), true, syncs[i].throwsOn(None), None)
        invariant forall i :: j <= i < |syncs| ==> syncs[i].bell == old(syncs[i].bell)
      {
        forall i | 0 <= i < |syncs| && i != j ensures syncs[i] != syncs[j] {
          if i < j {
            assert At(syncs, i) != At(syncs, j);
          } else {
            assert At(syncs, j) != At(syncs, i);
          }
        }
        syncs[j].InternalHandle(None);
        log := log + [Delivery(syncs[j], None)];
        assert SyncDeliveries(syncs[..j + 1]) == SyncDeliveries(syncs[..j]) + [Delivery(syncs[j], None)];
        j := j + 1;
      }
      assert syncs[..j] == syncs;
    }

    /** The reply handler: the first 220 reply while no welcome is stored
      becomes the welcome; every other reply is fed to the handlers. */
    method Receive(r: Reply) returns (ok: bool)
      requires Valid()
      modifies this, queue
      ensures Valid()
      ensures old(welcome).None? && r.code == 220 ==>
        ok && welcome == Some(r) && queue == old(queue) && log == old(log) && Bells(old(queue)) == old(Bells(queue))
      ensures !(old(welcome).None? && r.code == 220) ==> welcome == old(welcome) && (ok <==> old(queue) != [])
      ensures !(old(welcome).None? && r.code == 220) && ok ==>
        queue == Dispatch(old(queue), r).value.0 && log == old(log) + Dispatch(old(queue), r).value.1
      ensures !(old(welcome).None? && r.code == 220) && ok ==>
        Bells(old(queue)) == Rebell(old(Bells(queue)), Dispatch(old(queue), r).value.1)
      ensures !ok ==> queue == old(queue) && log == old(log) && Bells(old(queue)) == old(Bells(queue))
      ensures unchanged(`wire, `security, `issued)
    {
      if welcome.None? && r.code == 220 {
        welcome := Some(r);
        return true;
      }
      ok := FeedHandler(r);
    }
  }

  lemma {:induction false} LeadingSyncsOf(q: seq<Command>, ss: seq<Command>, rest: seq<Command>)
    requires q == ss + rest
    requires forall i :: 0 <= i < |ss| ==> ss[i].isSync
    requires rest == [] || !rest[0].isSync
    ensures LeadingSyncs(q) == |ss|
    decreases |ss|
  {
    if ss == [] {
      assert q == rest;
    } else {
      assert q[1..] == ss[1..] + rest;
      LeadingSyncsOf(q[1..], ss[1..], rest);
    }
  }
}
