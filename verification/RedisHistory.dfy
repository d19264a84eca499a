/** What the events of a run alone say about a connection, and that the state after the run agrees: which
    connections are open, what each has sent, and whether the replies on it are the ones redis gave. */
module RedisHistory {
  import opened RedisProtocol

  /** The `Open` after `before` is that of `cid`. */
  predicate Opened(pid: nat, before: seq<Event>, cid: nat) {
    cid == ConnId(pid, Opens(before) + 1)
  }

  predicate IsOpen(pid: nat, events: seq<Event>, cid: nat) {
    if events == [] then false
    else
      var before := events[..|events| - 1];
      match events[|events| - 1]
      case Open => Opened(pid, before, cid) || IsOpen(pid, before, cid)
      case Close(c) => c != cid && IsOpen(pid, before, cid)
      case _ => IsOpen(pid, before, cid)
  }

  /** Requests of the connection so far, whoever serves them. */
  function Requests(pid: nat, events: seq<Event>, cid: nat): nat {
    if events == [] then 0
    else
      var before := events[..|events| - 1];
      var e := events[|events| - 1];
      if e.Open? && Opened(pid, before, cid) then 0
      else Requests(pid, before, cid) + if e in {Elsewhere(cid), Push(cid), PushTimeout(cid)} then 1 else 0
  }

  /** The commands sent for the connection: one per push in time, numbered by its requests. */
  function Sent(pid: nat, events: seq<Event>, cid: nat): seq<Command> {
    if events == [] then []
    else
      var before := events[..|events| - 1];
      var e := events[|events| - 1];
      if e.Open? && Opened(pid, before, cid) then []
      else Sent(pid, before, cid) + if e == Push(cid) then [Command(cid, Requests(pid, before, cid))] else []
  }

  /** A worker that serves `cid` delivers, in outcome `o`. */
  predicate DeliversTo(o: Outcome, e: Event, cid: nat) {
    && e.Deliver? && o.Next? && e.i < |o.state.worker|
    && o.state.worker[e.i].Serving? && o.state.worker[e.i].cmd.cid == cid
  }

  /** What redis gave for the connection, reply by reply: whether it was null. */
  function Given(start: State, events: seq<Event>, cid: nat): seq<bool> {
    if events == [] then []
    else
      var before := events[..|events| - 1];
      var e := events[|events| - 1];
      if e.Open? && Opened(start.pid, before, cid) then []
      else Given(start, before, cid) + if DeliversTo(Run(start, before), e, cid) then [e.isNull] else []
  }

  function Nulls(q: seq<Reply>): (r: seq<bool>)
    ensures |r| == |q|
  {
    seq(|q|, i requires 0 <= i < |q| => q[i].isNull)
  }

  /** The record of a connection in a state. */
  ghost predicate RecordIs(s: State, cid: nat, open: bool, requests: nat, sent: seq<Command>, given: seq<bool>) {
    && (cid in s.conns <==> open)
    && (cid in s.conns <==> cid in s.reply)
    && (cid in s.conns ==>
          var c := s.conns[cid];
          c.next == requests && c.accepted == sent && Nulls(c.popped) + Nulls(s.reply[cid]) == given)
  }

  /** It is what the events say. */
  ghost predicate Recorded(pid: nat, events: seq<Event>, start: State, s: State, cid: nat) {
    RecordIs(s, cid, IsOpen(pid, events, cid), Requests(pid, events, cid), Sent(pid, events, cid),
             Given(start, events, cid))
  }

  predicate OpensIt(s: State, e: Event, cid: nat) {
    e.Open? && cid == ConnId(s.pid, s.connected + 1)
  }

  /** What one step does to the record of a connection. */
  ghost predicate Effect(s: State, e: Event, t: State, cid: nat) {
    && (cid in t.conns <==> cid in t.reply)
    && (cid in t.conns <==> OpensIt(s, e, cid) || (cid in s.conns && e != Close(cid)))
    && (OpensIt(s, e, cid) ==> t.conns[cid] == Conn(Idle, 0, [], []) && t.reply[cid] == [])
    && (cid in t.conns && !OpensIt(s, e, cid) ==>
          && t.conns[cid].next ==
             s.conns[cid].next + (if e in {Elsewhere(cid), Push(cid), PushTimeout(cid)} then 1 else 0)
          && t.conns[cid].accepted ==
             s.conns[cid].accepted + (if e == Push(cid) then [Command(cid, s.conns[cid].next)] else [])
          && cid in s.reply
          && Nulls(t.conns[cid].popped) + Nulls(t.reply[cid]) ==
             Nulls(s.conns[cid].popped) + Nulls(s.reply[cid])
             + (if DeliversTo(Next(s), e, cid) then [e.isNull] else []))
  }

  lemma ReplyEffect(s: State, e: Event, cid: nat)
    requires Step(s, e).Next? && cid in s.conns && cid in s.reply && (e.Pop? || e.Deliver?)
    ensures Effect(s, e, Step(s, e).state, cid)
  {
    var t := Step(s, e).state;
    if e == Pop(cid) {
      var head := [s.reply[cid][0].isNull];
      assert Nulls(s.reply[cid]) == head + Nulls(t.reply[cid]);
      assert Nulls(t.conns[cid].popped) == Nulls(s.conns[cid].popped) + head;
    }
    if DeliversTo(Next(s), e, cid) {
      assert Nulls(t.reply[cid]) == Nulls(s.reply[cid]) + [e.isNull];
    }
  }

  lemma StepEffect(s: State, e: Event, cid: nat)
    requires Step(s, e).Next? && (cid in s.conns <==> cid in s.reply)
    ensures Effect(s, e, Step(s, e).state, cid)
  {
    if cid in s.conns && (e.Pop? || e.Deliver?) {
      ReplyEffect(s, e, cid);
    }
  }

  /** A close takes the connection and its reply channel away, and nothing else. */
  lemma CloseErases(s: State, cid: nat)
    requires StepClose(s, cid).Next?
    ensures var t := StepClose(s, cid).state;
            && cid !in t.conns && cid !in t.reply && t.order == s.order && t.worker == s.worker
            && (forall c | c != cid :: (c in t.conns <==> c in s.conns) && (c in t.reply <==> c in s.reply))
            && (forall c | c in t.conns :: t.conns[c] == s.conns[c])
            && (forall c | c in t.reply :: t.reply[c] == s.reply[c])
  {
  }

  /** A worker takes one command off its own channel; if the connection is gone it stays free. */
  lemma DequeueTakes(s: State, i: nat)
    requires StepDequeue(s, i).Next?
    ensures var t := StepDequeue(s, i).state;
            && |t.order| == |s.order| && |t.worker| == |s.worker| && t.reply == s.reply && t.conns == s.conns
            && [s.order[i][0]] + t.order[i] == s.order[i]
            && (t.worker[i] == Waiting <==> s.order[i][0].cid !in s.reply)
            && (t.worker[i].Serving? ==> t.worker[i].cmd == s.order[i][0] && t.worker[i].done == 0)
            && forall j | 0 <= j < |s.order| && j < |s.worker| && j != i ::
                 t.order[j] == s.order[j] && t.worker[j] == s.worker[j]
  {
  }

  /** When each step of the exchange can be taken: the channels block at 1024 commands and 256 replies. */
  lemma EnabledExactly(s: State, cid: nat, i: nat, isNull: bool)
    requires Inv(s) && cid in s.conns && i < |s.worker|
    ensures StepPush(s, cid).Next? <==> s.conns[cid].phase == Idle && |s.order[Home(cid, |s.order|)]| < 1024
    ensures StepPop(s, cid).Next? <==> s.conns[cid].phase != Idle && s.reply[cid] != []
    ensures StepDequeue(s, i).Next? <==> s.worker[i] == Waiting && s.order[i] != []
    ensures StepDeliver(s, i, isNull).Next? <==>
              var w := s.worker[i];
              w.Serving? && w.cmd.cid in s.reply && |s.reply[w.cmd.cid]| < 256
    ensures StepClose(s, cid) == Blocked <==> s.conns[cid].phase != Idle
  {
    WorkersSound(s);
  }

  lemma StepCounts(s: State, e: Event)
    requires Step(s, e).Next?
    ensures Step(s, e).state.pid == s.pid
    ensures Step(s, e).state.connected == s.connected + if e.Open? then 1 else 0
  {
  }

  lemma RecordGoesOn(s: State, e: Event, t: State, cid: nat, open: bool, requests: nat, sent: seq<Command>,
                     given: seq<bool>)
    requires RecordIs(s, cid, open, requests, sent, given) && Effect(s, e, t, cid)
    ensures if OpensIt(s, e, cid) then RecordIs(t, cid, true, 0, [], [])
            else RecordIs(t, cid, open && e != Close(cid),
                          requests + (if e in {Elsewhere(cid), Push(cid), PushTimeout(cid)} then 1 else 0),
                          sent + (if e == Push(cid) then [Command(cid, requests)] else []),
                          given + (if DeliversTo(Next(s), e, cid) then [e.isNull] else []))
  {
  }

  lemma RecordedOn(start: State, events: seq<Event>, s: State, t: State, cid: nat)
    requires events != [] && s.pid == start.pid && s.connected == Opens(events[..|events| - 1])
    requires Run(start, events[..|events| - 1]) == Next(s)
    requires Recorded(start.pid, events[..|events| - 1], start, s, cid) && Effect(s, events[|events| - 1], t, cid)
    ensures Recorded(start.pid, events, start, t, cid)
  {
    var before := events[..|events| - 1];
    RecordGoesOn(s, events[|events| - 1], t, cid, IsOpen(start.pid, before, cid), Requests(start.pid, before, cid),
                 Sent(start.pid, before, cid), Given(start, before, cid));
  }

  /** In every run: the open connections are those opened and not closed since, each has sent one numbered
      command per push in time, and the replies popped from it and queued on it are null exactly where
      redis gave none, in order. */
  lemma {:induction false} RunRecorded(pid: nat, endpoints: nat, events: seq<Event>, cid: nat)
    requires endpoints > 0 && Run(Start(pid, endpoints), events).Next?
    ensures var s := Run(Start(pid, endpoints), events).state;
            && s.pid == pid && s.connected == Opens(events)
            && Recorded(pid, events, Start(pid, endpoints), s, cid)
  {
    if events != [] {
      var before := events[..|events| - 1];
      RunRecorded(pid, endpoints, before, cid);
      var s := Run(Start(pid, endpoints), before).state;
      StepEffect(s, events[|events| - 1], cid);
      StepCounts(s, events[|events| - 1]);
      RecordedOn(Start(pid, endpoints), events, s, Run(Start(pid, endpoints), events).state, cid);
    }
  }
}
