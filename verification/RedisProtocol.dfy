/** The request/reply exchange of src/modules/redis.cpp as interleaved steps: connections push commands
    into the bounded order channel of one endpoint, one worker per endpoint serves them in order, and
    replies come back through a bounded channel per connection. */
module RedisProtocol {
  import opened Basics

  const ORDER_CAPACITY: nat := 1024
  const REPLY_CAPACITY: nat := 256
  const CONID_LIMIT: nat := 0x1_0000_0000

  /** The SET and GET of one transaction. */
  datatype Command = Command(cid: nat, tid: nat)

  /** Which of the replies a reply is: number 0 answers the SET, number 1 the GET. */
  datatype Tag = Tag(cid: nat, tid: nat, k: nat)

  /** A reply as queued; `null` when `redisGetReply` produced none. */
  datatype Reply = Reply(tag: Tag, isNull: bool)

  datatype Worker = Waiting | Serving(cmd: Command, done: nat)

  /** Where the connection's coroutine stands in `on_request_header`. */
  datatype Phase = Idle | First(tid: nat) | Second(tid: nat)

  /** `accepted` and `popped` record the commands pushed and the replies popped so far. */
  datatype Conn = Conn(phase: Phase, next: nat, accepted: seq<Command>, popped: seq<Reply>)

  datatype State = State(pid: nat, connected: nat, order: seq<seq<Command>>, worker: seq<Worker>,
                         reply: map<nat, seq<Reply>>, conns: map<nat, Conn>)

  /** `Elsewhere`: a request that another module serves, which takes a transaction number all the same. */
  datatype Event =
    | Open
    | Close(cid: nat)
    | Elsewhere(cid: nat)
    | Push(cid: nat)
    | PushTimeout(cid: nat)
    | Pop(cid: nat)
    | PopTimeout(cid: nat)
    | Dequeue(i: nat)
    | Deliver(i: nat, isNull: bool)

  /** `Fault`: the entry a worker holds an iterator to is erased. */
  datatype Outcome = Blocked | Fault | Next(state: State)


  /** `connection_id | conid` for the `n`-th accepted connection: the counter is 32 bits wide. */
  function ConnId(pid: nat, n: nat): nat {
    pid * CONID_LIMIT + n % CONID_LIMIT
  }

  /** The process number stands above the counter, which starts at 1 and comes to 0 last. */
  lemma ConnIdParts(pid: nat, n: nat)
    requires 0 < n <= CONID_LIMIT
    ensures ConnId(pid, n) / CONID_LIMIT == pid
    ensures ConnId(pid, n) % CONID_LIMIT == if n == CONID_LIMIT then 0 else n
  {
  }

  /** Ids repeat exactly every 2^32 connections. */
  lemma ConnIdRepeats(pid: nat, a: nat, b: nat)
    ensures ConnId(pid, a) == ConnId(pid, b) <==> a % CONID_LIMIT == b % CONID_LIMIT
    ensures 0 < a <= CONID_LIMIT && 0 < b <= CONID_LIMIT ==> (ConnId(pid, a) == ConnId(pid, b) <==> a == b)
  {
  }

  /** The counter of 32 bits goes on from where it is. */
  lemma CounterWraps(n: nat)
    ensures (n + 1) % CONID_LIMIT == if n % CONID_LIMIT + 1 == CONID_LIMIT then 0 else n % CONID_LIMIT + 1
  {
  }

  /** `cid % n`, the endpoint a connection uses. */
  function Home(cid: nat, n: nat): (i: nat)
    requires n > 0
    ensures i < n
  {
    if cid < n then cid else Home(cid - n, n)
  }

  lemma {:induction false} HomeQuotient(cid: nat, n: nat) returns (q: nat)
    requires n > 0
    ensures cid == q * n + Home(cid, n)
  {
    if cid < n {
      q := 0;
    } else {
      var p := HomeQuotient(cid - n, n);
      q := p + 1;
      assert q * n == p * n + n;
    }
  }

  lemma HomeIsRemainder(cid: nat, n: nat)
    requires n > 0
    ensures Home(cid, n) == cid % n
  {
    var q := HomeQuotient(cid, n);
    Divided(q, n, Home(cid, n));
  }

  function Tags(c: Command): (r: seq<Tag>)
    ensures |r| == 2
  {
    [Tag(c.cid, c.tid, 0), Tag(c.cid, c.tid, 1)]
  }

  function Start(pid: nat, endpoints: nat): State {
    State(pid, 0, seq(endpoints, _ => []), seq(endpoints, _ => Waiting), map[], map[])
  }

  // ---------------------------------------------------------------------- steps

  function StepOpen(s: State): Outcome {
    var cid := ConnId(s.pid, s.connected + 1);
    Next(s.(connected := s.connected + 1, reply := s.reply[cid := []], conns := s.conns[cid := Conn(Idle, 0, [], [])]))
  }

  predicate BeingServed(s: State, cid: nat) {
    exists i :: 0 <= i < |s.worker| && s.worker[i].Serving? && s.worker[i].cmd.cid == cid
  }

  function StepClose(s: State, cid: nat): Outcome {
    if cid !in s.conns || s.conns[cid].phase != Idle then Blocked
    else if BeingServed(s, cid) then Fault
    else Next(s.(reply := s.reply - {cid}, conns := s.conns - {cid}))
  }

  function StepPush(s: State, cid: nat): Outcome {
    if cid !in s.conns || s.conns[cid].phase != Idle || |s.order| == 0 then Blocked
    else
      var c := s.conns[cid];
      var i := Home(cid, |s.order|);
      var cmd := Command(cid, c.next);
      if |s.order[i]| >= ORDER_CAPACITY then Blocked
      else Next(s.(order := s.order[i := s.order[i] + [cmd]],
                   conns := s.conns[cid := Conn(First(c.next), c.next + 1, c.accepted + [cmd], c.popped)]))
  }

  /** A transaction that sends no command: its push timed out, or another module serves it. */
  function StepSkip(s: State, cid: nat): Outcome {
    if cid !in s.conns || s.conns[cid].phase != Idle then Blocked
    else Next(s.(conns := s.conns[cid := s.conns[cid].(next := s.conns[cid].next + 1)]))
  }

  /** The phase after the pop in hand has returned, one way or the other. */
  function AfterPop(p: Phase): Phase {
    if p.First? then Second(p.tid) else Idle
  }

  function StepPop(s: State, cid: nat): Outcome {
    if cid !in s.conns || cid !in s.reply || s.conns[cid].phase == Idle || s.reply[cid] == [] then Blocked
    else
      var c := s.conns[cid];
      Next(s.(reply := s.reply[cid := s.reply[cid][1..]],
              conns := s.conns[cid := c.(phase := AfterPop(c.phase), popped := c.popped + [s.reply[cid][0]])]))
  }

  function StepPopTimeout(s: State, cid: nat): Outcome {
    if cid !in s.conns || s.conns[cid].phase == Idle then Blocked
    else Next(s.(conns := s.conns[cid := s.conns[cid].(phase := AfterPop(s.conns[cid].phase))]))
  }

  function StepDequeue(s: State, i: nat): Outcome {
    if i >= |s.order| || i >= |s.worker| || s.worker[i] != Waiting || s.order[i] == [] then Blocked
    else
      var cmd := s.order[i][0];
      Next(s.(order := s.order[i := s.order[i][1..]],
              worker := if cmd.cid in s.reply then s.worker[i := Serving(cmd, 0)] else s.worker))
  }

  function StepDeliver(s: State, i: nat, isNull: bool): Outcome {
    if i >= |s.worker| || s.worker[i] == Waiting then Blocked
    else
      var Serving(cmd, done) := s.worker[i];
      if cmd.cid !in s.reply || done > 1 || |s.reply[cmd.cid]| >= REPLY_CAPACITY then Blocked
      else Next(s.(reply := s.reply[cmd.cid := s.reply[cmd.cid] + [Reply(Tags(cmd)[done], isNull)]],
                   worker := s.worker[i := if done == 0 then Serving(cmd, 1) else Waiting]))
  }

  function Step(s: State, e: Event): Outcome {
    match e
    case Open => StepOpen(s)
    case Close(cid) => StepClose(s, cid)
    case Push(cid) => StepPush(s, cid)
    case Elsewhere(cid) => StepSkip(s, cid)
    case PushTimeout(cid) => StepSkip(s, cid)
    case Pop(cid) => StepPop(s, cid)
    case PopTimeout(cid) => StepPopTimeout(s, cid)
    case Dequeue(i) => StepDequeue(s, i)
    case Deliver(i, isNull) => StepDeliver(s, i, isNull)
  }

  function Then(o: Outcome, e: Event): Outcome {
    if o.Next? then Step(o.state, e) else o
  }

  /** The outcome of a whole run; it ends at the first fault. */
  function Run(s: State, events: seq<Event>): Outcome {
    if events == [] then Next(s) else Then(Run(s, events[..|events| - 1]), events[|events| - 1])
  }

  // ------------------------------------------------------------ what is still owed

  function TagsOf(q: seq<Reply>): (r: seq<Tag>)
    ensures |r| == |q|
  {
    seq(|q|, i requires 0 <= i < |q| => q[i].tag)
  }

  /** Replies the worker has yet to deliver to `cid` for the command in hand. */
  function InHand(w: Worker, cid: nat): seq<Tag> {
    if w.Serving? && w.cmd.cid == cid && w.done <= 2 then Tags(w.cmd)[w.done..] else []
  }

  /** Replies to the queued commands of `cid`. */
  function Queued(q: seq<Command>, cid: nat): seq<Tag> {
    if q == [] then [] else (if q[0].cid == cid then Tags(q[0]) else []) + Queued(q[1..], cid)
  }

  /** All replies accepted for `cid` and not popped yet, in the order they will come. */
  function Owed(s: State, cid: nat): seq<Tag>
    requires |s.order| == |s.worker| > 0 && cid in s.reply
  {
    var i := Home(cid, |s.order|);
    TagsOf(s.reply[cid]) + InHand(s.worker[i], cid) + Queued(s.order[i], cid)
  }

  /** Replies to a list of commands. */
  function RepliesTo(cmds: seq<Command>): (r: seq<Tag>)
    ensures |r| == 2 * |cmds|
  {
    if cmds == [] then [] else RepliesTo(cmds[..|cmds| - 1]) + Tags(cmds[|cmds| - 1])
  }

  lemma {:induction false} QueuedAppend(a: seq<Command>, b: seq<Command>, cid: nat)
    ensures Queued(a + b, cid) == Queued(a, cid) + Queued(b, cid)
  {
    if a == [] {
      assert a + b == b;
    } else {
      assert (a + b)[1..] == a[1..] + b;
      QueuedAppend(a[1..], b, cid);
    }
  }

  lemma {:induction false} QueuedNone(q: seq<Command>, cid: nat)
    requires forall j | 0 <= j < |q| :: q[j].cid != cid
    ensures Queued(q, cid) == []
  {
    if q != [] {
      QueuedNone(q[1..], cid);
    }
  }

  // ------------------------------------------------------------------- invariants

  /** One of the ids `ConnId(pid, 1)` to `ConnId(pid, connected)`. */
  predicate Issued(s: State, cid: nat) {
    var low := cid - s.pid * CONID_LIMIT;
    0 <= low < CONID_LIMIT && if low == 0 then s.connected >= CONID_LIMIT else low <= s.connected
  }

  lemma IssuedExactly(s: State, cid: nat)
    requires s.connected <= CONID_LIMIT
    ensures Issued(s, cid) <==> exists n :: 0 < n <= s.connected && cid == ConnId(s.pid, n)
  {
    var low := cid - s.pid * CONID_LIMIT;
    if Issued(s, cid) {
      var n := if low == 0 then CONID_LIMIT else low;
      assert 0 < n <= s.connected && cid == ConnId(s.pid, n);
    }
  }

  /** The commands queued at endpoint `i` belong there. */
  ghost predicate OrderOk(s: State, i: nat)
    requires |s.order| > 0 && i < |s.order|
  {
    forall j | 0 <= j < |s.order[i]| ::
      Home(s.order[i][j].cid, |s.order|) == i && Issued(s, s.order[i][j].cid)
  }

  /** The worker of endpoint `i` serves a command that belongs there, for an open connection. */
  ghost predicate WorkerOk(s: State, i: nat)
    requires |s.order| > 0 && i < |s.worker|
  {
    s.worker[i].Serving? ==>
      && s.worker[i].done < 2 && s.worker[i].cmd.cid in s.conns
      && Home(s.worker[i].cmd.cid, |s.order|) == i
  }

  /** Commands only travel through the endpoint their connection id selects, and only connections that
      exist or existed have any. */
  ghost predicate Routed(s: State) {
    && |s.order| == |s.worker| > 0
    && s.reply.Keys == s.conns.Keys
    && (forall cid {:trigger Issued(s, cid)} | cid in s.conns :: Issued(s, cid))
    && (forall i: nat {:trigger OrderOk(s, i)} | i < |s.order| :: OrderOk(s, i))
    && (forall i: nat {:trigger WorkerOk(s, i)} | i < |s.worker| :: WorkerOk(s, i))
  }

  /** What a connection has accepted, what it has popped, and what it is owed, fit together. */
  ghost predicate Accounted(s: State, cid: nat)
    requires Routed(s) && cid in s.conns
  {
    var c := s.conns[cid];
    && RepliesTo(c.accepted) == TagsOf(c.popped) + Owed(s, cid)
    && (forall j | 0 <= j < |c.accepted| :: c.accepted[j].cid == cid && c.accepted[j].tid < c.next)
    && (forall j, k | 0 <= j < k < |c.accepted| :: c.accepted[j].tid < c.accepted[k].tid)
    && (!c.phase.Idle? ==> c.accepted != [] && c.accepted[|c.accepted| - 1].tid == c.phase.tid)
  }

  ghost predicate Inv(s: State) {
    && Routed(s)
    && (forall cid {:trigger Accounted(s, cid)} | cid in s.conns :: Accounted(s, cid))
  }

  /** Replies to accepted commands that have not been popped. */
  function Outstanding(c: Conn): int {
    2 * |c.accepted| - |c.popped|
  }

  /** How many replies the phase is waiting for when no pop has timed out. */
  function Expected(p: Phase): nat {
    match p
    case Idle => 0
    case First(_) => 2
    case Second(_) => 1
  }

  lemma OutstandingIsOwed(s: State, cid: nat)
    requires Inv(s) && cid in s.conns
    ensures Outstanding(s.conns[cid]) == |Owed(s, cid)|
  {
    assert Accounted(s, cid);
  }

  /** No pop has ever timed out: exactly the expected replies are owed. */
  ghost predicate InStep(s: State)
    requires Routed(s)
  {
    forall cid {:trigger Owed(s, cid)} | cid in s.conns :: |Owed(s, cid)| == Expected(s.conns[cid].phase)
  }

  // -------------------------------------------------- every step keeps the invariant

  /** A connection whose record and whose debt are untouched stays accounted for. */
  lemma UntouchedAccounted(s: State, t: State, c: nat)
    requires Inv(s) && Routed(t) && c in s.conns && c in t.conns
    requires t.conns[c] == s.conns[c] && Owed(t, c) == Owed(s, c)
    ensures Accounted(t, c)
  {
    assert Accounted(s, c);
  }

  /** Routing survives any step that only moves commands within their endpoint, adds commands of open
      connections to their endpoint, and keeps every served connection. */
  lemma StillRouted(s: State, t: State)
    requires Routed(s) && t.pid == s.pid && t.connected >= s.connected
    requires |t.order| == |s.order| && |t.worker| == |s.worker| && t.reply.Keys == t.conns.Keys
    requires forall cid | cid in t.conns :: cid in s.conns || Issued(t, cid)
    requires forall i, j | 0 <= i < |t.order| && 0 <= j < |t.order[i]| ::
               t.order[i][j] in s.order[i]
               || (t.order[i][j].cid in s.conns && Home(t.order[i][j].cid, |s.order|) == i)
    requires forall i | 0 <= i < |t.worker| && t.worker[i].Serving? ::
               && t.worker[i].done < 2 && t.worker[i].cmd.cid in t.conns
               && ((s.worker[i].Serving? && s.worker[i].cmd == t.worker[i].cmd) || t.worker[i].cmd in s.order[i])
    ensures Routed(t)
  {
    forall cid | cid in t.conns
      ensures Issued(t, cid)
    {
      assert cid in s.conns ==> Issued(s, cid);
    }
    forall i: nat | i < |t.order|
      ensures OrderOk(t, i)
    {
      assert OrderOk(s, i);
      assert forall cid | cid in s.conns :: Issued(s, cid);
    }
    forall i: nat | i < |t.worker|
      ensures WorkerOk(t, i)
    {
      assert WorkerOk(s, i) && OrderOk(s, i);
    }
  }

  lemma WorkersSound(s: State)
    requires Routed(s)
    ensures forall i | 0 <= i < |s.worker| && s.worker[i].Serving? ::
              && s.worker[i].done < 2 && s.worker[i].cmd.cid in s.conns
              && Home(s.worker[i].cmd.cid, |s.order|) == i
  {
    forall i | 0 <= i < |s.worker| && s.worker[i].Serving?
      ensures s.worker[i].done < 2 && s.worker[i].cmd.cid in s.conns && Home(s.worker[i].cmd.cid, |s.order|) == i
    {
      assert WorkerOk(s, i);
    }
  }

  lemma OpenRoutes(s: State)
    requires Inv(s) && s.connected < CONID_LIMIT
    ensures Routed(StepOpen(s).state)
  {
    WorkersSound(s);
    StillRouted(s, StepOpen(s).state);
  }

  lemma NewcomerIsNew(s: State)
    requires Routed(s) && s.connected < CONID_LIMIT
    ensures !Issued(s, ConnId(s.pid, s.connected + 1)) && ConnId(s.pid, s.connected + 1) !in s.conns
  {
  }

  lemma NewcomerOwedNothing(s: State)
    requires Inv(s) && s.connected < CONID_LIMIT && Routed(StepOpen(s).state)
    ensures var newcomer := ConnId(s.pid, s.connected + 1);
            && Owed(StepOpen(s).state, newcomer) == [] && StepOpen(s).state.conns[newcomer].phase == Idle
            && Accounted(StepOpen(s).state, newcomer)
  {
    var newcomer := ConnId(s.pid, s.connected + 1);
    var i := Home(newcomer, |s.order|);
    NewcomerIsNew(s);
    assert OrderOk(s, i) && WorkerOk(s, i);
    QueuedNone(s.order[i], newcomer);
    assert InHand(s.worker[i], newcomer) == [];
  }

  lemma OldcomerUntouched(s: State, c: nat)
    requires Inv(s) && Routed(StepOpen(s).state) && c in s.conns && c != ConnId(s.pid, s.connected + 1)
    ensures Accounted(StepOpen(s).state, c) && Owed(StepOpen(s).state, c) == Owed(s, c)
    ensures StepOpen(s).state.conns[c] == s.conns[c]
  {
    UntouchedAccounted(s, StepOpen(s).state, c);
  }

  lemma OpenKeeps(s: State)
    requires Inv(s) && s.connected < CONID_LIMIT
    ensures Inv(StepOpen(s).state)
    ensures InStep(s) ==> InStep(StepOpen(s).state)
  {
    OpenRoutes(s);
    forall c | c in StepOpen(s).state.conns
      ensures Accounted(StepOpen(s).state, c)
    {
      OpenAccounted(s, c);
    }
    OpenInStep(s);
  }

  lemma OpenAccounted(s: State, c: nat)
    requires Inv(s) && s.connected < CONID_LIMIT && Routed(StepOpen(s).state) && c in StepOpen(s).state.conns
    ensures Accounted(StepOpen(s).state, c)
  {
    if c == ConnId(s.pid, s.connected + 1) {
      NewcomerOwedNothing(s);
    } else {
      OldcomerUntouched(s, c);
    }
  }

  lemma OpenInStep(s: State)
    requires Inv(s) && s.connected < CONID_LIMIT && Routed(StepOpen(s).state)
    ensures InStep(s) ==> InStep(StepOpen(s).state)
  {
    var t := StepOpen(s).state;
    if InStep(s) {
      forall c | c in t.conns
        ensures |Owed(t, c)| == Expected(t.conns[c].phase)
      {
        if c == ConnId(s.pid, s.connected + 1) {
          NewcomerOwedNothing(s);
        } else {
          OldcomerUntouched(s, c);
        }
      }
    }
  }

  lemma CloseKeeps(s: State, cid: nat)
    requires Inv(s) && StepClose(s, cid).Next?
    ensures Inv(StepClose(s, cid).state)
    ensures InStep(s) ==> InStep(StepClose(s, cid).state)
  {
    var t := StepClose(s, cid).state;
    WorkersSound(s);
    StillRouted(s, t);
    forall c | c in t.conns
      ensures Accounted(t, c) && Owed(t, c) == Owed(s, c)
    {
      UntouchedAccounted(s, t, c);
    }
  }

  lemma PushRoutes(s: State, cid: nat)
    requires Inv(s) && StepPush(s, cid).Next?
    ensures Routed(StepPush(s, cid).state)
  {
    WorkersSound(s);
    StillRouted(s, StepPush(s, cid).state);
  }

  lemma PushOwes(s: State, cid: nat, c: nat)
    requires Inv(s) && StepPush(s, cid).Next? && c in s.conns
    requires Routed(StepPush(s, cid).state)
    ensures Owed(StepPush(s, cid).state, c) ==
            Owed(s, c) + if c == cid then Tags(Command(cid, s.conns[cid].next)) else []
  {
    var cmd := Command(cid, s.conns[cid].next);
    var i := Home(c, |s.order|);
    QueuedAppend(s.order[i], [cmd], c);
    assert Queued([cmd], c) == if c == cid then Tags(cmd) else [];
  }

  lemma PushAccounted(s: State, cid: nat)
    requires Inv(s) && StepPush(s, cid).Next? && Routed(StepPush(s, cid).state)
    ensures Accounted(StepPush(s, cid).state, cid)
  {
    var t := StepPush(s, cid).state;
    var conn := s.conns[cid];
    assert Accounted(s, cid);
    PushOwes(s, cid, cid);
    assert t.conns[cid].accepted[..|conn.accepted|] == conn.accepted;
    var cmd := Command(cid, conn.next);
    var popped := TagsOf(conn.popped);
    assert popped + (Owed(s, cid) + Tags(cmd)) == popped + Owed(s, cid) + Tags(cmd);
  }

  lemma PushKeeps(s: State, cid: nat)
    requires Inv(s) && StepPush(s, cid).Next?
    ensures Inv(StepPush(s, cid).state)
    ensures InStep(s) ==> InStep(StepPush(s, cid).state)
  {
    var t := StepPush(s, cid).state;
    PushRoutes(s, cid);
    PushAccounted(s, cid);
    forall c | c in t.conns
      ensures Accounted(t, c)
    {
      if c != cid {
        PushOwes(s, cid, c);
        UntouchedAccounted(s, t, c);
      }
    }
    PushInStep(s, cid);
  }

  lemma PushInStep(s: State, cid: nat)
    requires Inv(s) && StepPush(s, cid).Next? && Routed(StepPush(s, cid).state)
    ensures InStep(s) ==> InStep(StepPush(s, cid).state)
  {
    if InStep(s) {
      forall c | c in s.conns
        ensures |Owed(StepPush(s, cid).state, c)| == Expected(StepPush(s, cid).state.conns[c].phase)
      {
        PushOwes(s, cid, c);
      }
    }
  }

  lemma PopOwes(s: State, cid: nat, c: nat)
    requires Inv(s) && StepPop(s, cid).Next? && c in s.conns
    requires Routed(StepPop(s, cid).state)
    ensures Owed(s, c) == (if c == cid then [s.reply[cid][0].tag] else []) + Owed(StepPop(s, cid).state, c)
  {
    if c == cid {
      assert TagsOf(s.reply[cid]) == [s.reply[cid][0].tag] + TagsOf(s.reply[cid][1..]);
    }
  }

  lemma PopAccounted(s: State, cid: nat)
    requires Inv(s) && StepPop(s, cid).Next? && Routed(StepPop(s, cid).state)
    ensures Accounted(StepPop(s, cid).state, cid)
  {
    var t := StepPop(s, cid).state;
    assert Accounted(s, cid);
    PopOwes(s, cid, cid);
    var tag := s.reply[cid][0].tag;
    var popped := TagsOf(s.conns[cid].popped);
    assert TagsOf(t.conns[cid].popped) == popped + [tag];
    assert popped + ([tag] + Owed(t, cid)) == popped + [tag] + Owed(t, cid);
  }

  lemma PopKeeps(s: State, cid: nat)
    requires Inv(s) && StepPop(s, cid).Next?
    ensures Inv(StepPop(s, cid).state)
    ensures InStep(s) ==> InStep(StepPop(s, cid).state)
  {
    var t := StepPop(s, cid).state;
    WorkersSound(s);
    StillRouted(s, t);
    PopAccounted(s, cid);
    forall c | c in t.conns
      ensures Accounted(t, c)
      ensures |Owed(s, c)| == |Owed(t, c)| + if c == cid then 1 else 0
    {
      PopOwes(s, cid, c);
      if c != cid {
        UntouchedAccounted(s, t, c);
      }
    }
  }

  lemma SkipKeeps(s: State, cid: nat)
    requires Inv(s) && StepSkip(s, cid).Next?
    ensures Inv(StepSkip(s, cid).state)
    ensures InStep(s) ==> InStep(StepSkip(s, cid).state)
  {
    var t := StepSkip(s, cid).state;
    RecordKeeps(s, t, cid);
    forall c | c in t.conns
      ensures Owed(t, c) == Owed(s, c) && t.conns[c].phase == s.conns[c].phase
    {
    }
  }

  lemma PopTimeoutKeeps(s: State, cid: nat)
    requires Inv(s) && StepPopTimeout(s, cid).Next?
    ensures Inv(StepPopTimeout(s, cid).state)
  {
    RecordKeeps(s, StepPopTimeout(s, cid).state, cid);
  }

  /** A change to the phase or the next transaction id of one connection. */
  lemma RecordKeeps(s: State, t: State, cid: nat)
    requires Inv(s) && cid in s.conns && cid in t.conns
    requires t == s.(conns := s.conns[cid := t.conns[cid]])
    requires t.conns[cid].accepted == s.conns[cid].accepted && t.conns[cid].popped == s.conns[cid].popped
    requires t.conns[cid].next >= s.conns[cid].next
    requires t.conns[cid].phase == Idle
             || (s.conns[cid].phase != Idle && t.conns[cid].phase.tid == s.conns[cid].phase.tid)
    ensures Inv(t)
  {
    WorkersSound(s);
    StillRouted(s, t);
    assert Accounted(s, cid);
    forall c | c in t.conns
      ensures Accounted(t, c)
    {
      assert Owed(t, c) == Owed(s, c);
      if c != cid {
        UntouchedAccounted(s, t, c);
      }
    }
  }

  lemma DequeueRoutes(s: State, i: nat)
    requires Inv(s) && StepDequeue(s, i).Next?
    ensures Routed(StepDequeue(s, i).state) && Home(s.order[i][0].cid, |s.order|) == i
  {
    WorkersSound(s);
    assert OrderOk(s, i);
    StillRouted(s, StepDequeue(s, i).state);
  }

  lemma DequeueOwes(s: State, i: nat, c: nat)
    requires Inv(s) && StepDequeue(s, i).Next? && c in s.conns
    requires Routed(StepDequeue(s, i).state) && Home(s.order[i][0].cid, |s.order|) == i
    ensures Owed(StepDequeue(s, i).state, c) == Owed(s, c)
  {
    var t := StepDequeue(s, i).state;
    var cmd := s.order[i][0];
    if Home(c, |s.order|) == i {
      assert Queued(s.order[i], c) == (if cmd.cid == c then Tags(cmd) else []) + Queued(t.order[i], c);
      assert InHand(s.worker[i], c) == [];
      assert InHand(t.worker[i], c) == if cmd.cid == c then Tags(cmd) else [];
    }
  }

  lemma DequeueKeeps(s: State, i: nat)
    requires Inv(s) && StepDequeue(s, i).Next?
    ensures Inv(StepDequeue(s, i).state)
    ensures InStep(s) ==> InStep(StepDequeue(s, i).state)
  {
    var t := StepDequeue(s, i).state;
    DequeueRoutes(s, i);
    forall c | c in t.conns
      ensures Accounted(t, c) && Owed(t, c) == Owed(s, c)
    {
      DequeueOwes(s, i, c);
      UntouchedAccounted(s, t, c);
    }
  }

  lemma DeliverRoutes(s: State, i: nat, isNull: bool)
    requires Inv(s) && StepDeliver(s, i, isNull).Next?
    ensures Routed(StepDeliver(s, i, isNull).state)
  {
    WorkersSound(s);
    StillRouted(s, StepDeliver(s, i, isNull).state);
  }

  lemma DeliverOwes(s: State, i: nat, isNull: bool, c: nat)
    requires Inv(s) && StepDeliver(s, i, isNull).Next? && c in s.conns
    requires Routed(StepDeliver(s, i, isNull).state)
    ensures Owed(StepDeliver(s, i, isNull).state, c) == Owed(s, c)
  {
    if c == s.worker[i].cmd.cid {
      DeliverOwesOwn(s, i, isNull);
    } else {
      assert InHand(s.worker[i], c) == [] == InHand(StepDeliver(s, i, isNull).state.worker[i], c);
    }
  }

  lemma DeliverOwesOwn(s: State, i: nat, isNull: bool)
    requires Inv(s) && StepDeliver(s, i, isNull).Next?
    requires Routed(StepDeliver(s, i, isNull).state)
    ensures var c := s.worker[i].cmd.cid;
            c in s.reply && Owed(StepDeliver(s, i, isNull).state, c) == Owed(s, c)
  {
    var t := StepDeliver(s, i, isNull).state;
    var Serving(cmd, done) := s.worker[i];
    var tag := Tags(cmd)[done];
    assert WorkerOk(s, i);
    assert TagsOf(t.reply[cmd.cid]) == TagsOf(s.reply[cmd.cid]) + [tag];
    assert InHand(s.worker[i], cmd.cid) == [tag] + InHand(t.worker[i], cmd.cid);
  }

  lemma DeliverKeeps(s: State, i: nat, isNull: bool)
    requires Inv(s) && StepDeliver(s, i, isNull).Next?
    ensures Inv(StepDeliver(s, i, isNull).state)
    ensures InStep(s) ==> InStep(StepDeliver(s, i, isNull).state)
  {
    var t := StepDeliver(s, i, isNull).state;
    DeliverRoutes(s, i, isNull);
    forall c | c in t.conns
      ensures Accounted(t, c) && Owed(t, c) == Owed(s, c)
    {
      DeliverOwes(s, i, isNull, c);
      UntouchedAccounted(s, t, c);
    }
  }

  /** Fewer than 2^32 connections are opened, so that no id is given out twice. */
  predicate IdsLast(s: State, e: Event) {
    e.Open? ==> s.connected < CONID_LIMIT
  }

  lemma StepKeeps(s: State, e: Event)
    requires Inv(s) && IdsLast(s, e) && Step(s, e).Next?
    ensures Inv(Step(s, e).state)
    ensures InStep(s) && !e.PopTimeout? ==> InStep(Step(s, e).state)
  {
    match e
    case Open => OpenKeeps(s);
    case Close(cid) => CloseKeeps(s, cid);
    case Push(cid) => PushKeeps(s, cid);
    case Elsewhere(cid) => SkipKeeps(s, cid);
    case PushTimeout(cid) => SkipKeeps(s, cid);
    case Pop(cid) => PopKeeps(s, cid);
    case PopTimeout(cid) => PopTimeoutKeeps(s, cid);
    case Dequeue(i) => DequeueKeeps(s, i);
    case Deliver(i, isNull) => DeliverKeeps(s, i, isNull);
  }

  // -------------------------------------------------------------------- whole runs

  function Opens(events: seq<Event>): nat {
    if events == [] then 0
    else Opens(events[..|events| - 1]) + if events[|events| - 1].Open? then 1 else 0
  }

  /** No pop times out; pushes may. */
  predicate PopsInTime(events: seq<Event>) {
    forall i | 0 <= i < |events| :: !events[i].PopTimeout?
  }

  lemma StartInv(pid: nat, endpoints: nat)
    requires endpoints > 0
    ensures Inv(Start(pid, endpoints)) && InStep(Start(pid, endpoints))
  {
    var s := Start(pid, endpoints);
    assert forall i: nat | i < endpoints :: OrderOk(s, i);
    assert forall i: nat | i < endpoints :: WorkerOk(s, i);
  }

  /** The invariant holds in every state any interleaving reaches before the connection counter wraps;
      if no pop timed out, every connection is owed exactly what its handler is waiting for. */
  lemma {:induction false} RunKeeps(pid: nat, endpoints: nat, events: seq<Event>)
    requires endpoints > 0 && Opens(events) <= CONID_LIMIT && Run(Start(pid, endpoints), events).Next?
    ensures var s := Run(Start(pid, endpoints), events).state;
            && Inv(s) && s.connected == Opens(events)
            && (PopsInTime(events) ==> InStep(s))
  {
    if events == [] {
      StartInv(pid, endpoints);
    } else {
      var before := events[..|events| - 1];
      var e := events[|events| - 1];
      RunKeeps(pid, endpoints, before);
      StepKeeps(Run(Start(pid, endpoints), before).state, e);
      assert PopsInTime(events) ==> PopsInTime(before) && !e.PopTimeout?;
    }
  }

  /** `e` is a step of the connection's own coroutine. */
  predicate StepOf(e: Event, cid: nat) {
    match e
    case Close(c) => c == cid
    case Elsewhere(c) => c == cid
    case Push(c) => c == cid
    case PushTimeout(c) => c == cid
    case Pop(c) => c == cid
    case PopTimeout(c) => c == cid
    case _ => false
  }

  /** Workers and other connections keep the invariant and leave the record of a connection alone. */
  lemma {:induction false} OthersKeep(s: State, events: seq<Event>, cid: nat)
    requires Inv(s) && cid in s.conns && s.connected + Opens(events) <= CONID_LIMIT
    requires Run(s, events).Next? && forall e | e in events :: !StepOf(e, cid)
    ensures var t := Run(s, events).state;
            && Inv(t) && t.pid == s.pid && t.connected == s.connected + Opens(events)
            && cid in t.conns && t.conns[cid] == s.conns[cid]
  {
    if events != [] {
      var before := events[..|events| - 1];
      var e := events[|events| - 1];
      OthersKeep(s, before, cid);
      var t := Run(s, before).state;
      StepKeeps(t, e);
      OtherLeavesAlone(t, e, cid);
    }
  }

  lemma OtherLeavesAlone(s: State, e: Event, cid: nat)
    requires Routed(s) && cid in s.conns && IdsLast(s, e) && Step(s, e).Next? && !StepOf(e, cid)
    ensures cid in Step(s, e).state.conns && Step(s, e).state.conns[cid] == s.conns[cid]
    ensures Step(s, e).state.pid == s.pid && Step(s, e).state.connected == s.connected + if e.Open? then 1 else 0
  {
    match e
    case Open => NewcomerIsNew(s);
    case _ =>
  }

  /** A connection that is owed nothing is not being served. */
  lemma OwedNothingNotServed(s: State, cid: nat)
    requires Inv(s) && cid in s.conns && Owed(s, cid) == []
    ensures !BeingServed(s, cid)
  {
    WorkersSound(s);
    forall i | 0 <= i < |s.worker| && s.worker[i].Serving?
      ensures s.worker[i].cmd.cid != cid
    {
      assert InHand(s.worker[i], s.worker[i].cmd.cid) != [];
    }
  }

  /** No reply entry is erased while a worker serves it, unless a pop timed out. */
  lemma {:induction false} NoFaultWithoutTimeout(pid: nat, endpoints: nat, events: seq<Event>)
    requires endpoints > 0 && Opens(events) <= CONID_LIMIT && PopsInTime(events)
    ensures !Run(Start(pid, endpoints), events).Fault?
  {
    if events != [] {
      var before := events[..|events| - 1];
      var e := events[|events| - 1];
      NoFaultWithoutTimeout(pid, endpoints, before);
      if Run(Start(pid, endpoints), before).Next? {
        RunKeeps(pid, endpoints, before);
        var s := Run(Start(pid, endpoints), before).state;
        if e.Close? && e.cid in s.conns && s.conns[e.cid].phase == Idle {
          OwedNothingNotServed(s, e.cid);
        }
      }
    }
  }

  /** With timed-out pops it can happen: both pops give up while the worker has the command in hand, and the
      connection is closed. */
  lemma FaultAfterTimeout(pid: nat)
    ensures var c := ConnId(pid, 1);
            Run(Start(pid, 1), [Open, Push(c), Dequeue(0)] + [PopTimeout(c), PopTimeout(c), Close(c)]) == Fault
  {
    var c := ConnId(pid, 1);
    ReachServing(pid);
    var s := Run(Start(pid, 1), [Open, Push(c), Dequeue(0)]).state;
    GiveUpAndClose(s, c);
    RunAppend(Start(pid, 1), [Open, Push(c), Dequeue(0)], [PopTimeout(c), PopTimeout(c), Close(c)]);
  }

  /** More replies are outstanding for `cid` than are delivered or will be for queued commands. */
  predicate MoreToCome(s: State, cid: nat)
    requires |s.order| > 0 && cid in s.conns && cid in s.reply
  {
    Outstanding(s.conns[cid]) > |s.reply[cid]| + |Queued(s.order[Home(cid, |s.order|)], cid)|
  }

  /** Closing a connection erases an entry in use exactly when more is to come. */
  lemma CloseFaultsExactly(s: State, cid: nat)
    requires Inv(s) && cid in s.conns && s.conns[cid].phase == Idle
    ensures StepClose(s, cid) == Fault <==> MoreToCome(s, cid)
  {
    assert Accounted(s, cid);
    WorkersSound(s);
    var w := s.worker[Home(cid, |s.order|)];
    assert MoreToCome(s, cid) <==> InHand(w, cid) != [];
    if BeingServed(s, cid) {
      assert w.Serving? && w.cmd.cid == cid;
    }
  }

  /** A close of an idle connection for which more is to come. */
  predicate ClosesTooSoon(o: Outcome, e: Event) {
    && o.Next? && e.Close? && e.cid in o.state.conns && e.cid in o.state.reply && |o.state.order| > 0
    && o.state.conns[e.cid].phase == Idle && MoreToCome(o.state, e.cid)
  }

  /** Step `i` of the run is such a close. */
  predicate TooSoonAt(start: State, events: seq<Event>, i: nat) {
    i < |events| && ClosesTooSoon(Run(start, events[..i]), events[i])
  }

  lemma TooSoonBefore(start: State, events: seq<Event>, n: nat, i: nat)
    requires i < n <= |events|
    ensures TooSoonAt(start, events[..n], i) <==> TooSoonAt(start, events, i)
  {
    assert events[..n][..i] == events[..i];
  }

  /** A run ends in the fault exactly when one of its steps closes a connection too soon. */
  lemma {:induction false} FaultExactly(pid: nat, endpoints: nat, events: seq<Event>)
    requires endpoints > 0 && Opens(events) <= CONID_LIMIT
    ensures Run(Start(pid, endpoints), events) == Fault <==>
            exists i: nat :: TooSoonAt(Start(pid, endpoints), events, i)
  {
    if events != [] {
      var start := Start(pid, endpoints);
      var n := |events| - 1;
      FaultExactly(pid, endpoints, events[..n]);
      LastStepFaults(pid, endpoints, events);
      forall i: nat | i < n
        ensures TooSoonAt(start, events[..n], i) <==> TooSoonAt(start, events, i)
      {
        TooSoonBefore(start, events, n, i);
      }
      NotTooSoonAfterFault(start, events, n);
    }
  }

  lemma NotTooSoonAfterFault(start: State, events: seq<Event>, n: nat)
    requires n < |events|
    ensures TooSoonAt(start, events, n) <==> ClosesTooSoon(Run(start, events[..n]), events[n])
    ensures !Run(start, events[..n]).Next? ==> !TooSoonAt(start, events, n)
  {
  }

  /** The fault of the last step of a run that has not failed before. */
  lemma LastStepFaults(pid: nat, endpoints: nat, events: seq<Event>)
    requires endpoints > 0 && Opens(events) <= CONID_LIMIT && events != []
    ensures var o := Run(Start(pid, endpoints), events[..|events| - 1]);
            var e := events[|events| - 1];
            o.Next? ==> (Step(o.state, e) == Fault <==> ClosesTooSoon(o, e))
  {
    var before := events[..|events| - 1];
    var e := events[|events| - 1];
    if Run(Start(pid, endpoints), before).Next? {
      RunKeeps(pid, endpoints, before);
      var s := Run(Start(pid, endpoints), before).state;
      if e.Close? && e.cid in s.conns && s.conns[e.cid].phase == Idle {
        CloseFaultsExactly(s, e.cid);
      }
    }
  }

  lemma ReachServing(pid: nat)
    ensures var c := ConnId(pid, 1);
            var o := Run(Start(pid, 1), [Open, Push(c), Dequeue(0)]);
            o.Next? && c in o.state.conns && o.state.conns[c].phase.First? && BeingServed(o.state, c)
  {
    var c := ConnId(pid, 1);
    var ev := [Open, Push(c), Dequeue(0)];
    assert ev[..0] == [] && ev[..3] == ev;
    RunStep(Start(pid, 1), ev, 0);
    RunStep(Start(pid, 1), ev, 1);
    RunStep(Start(pid, 1), ev, 2);
    assert Run(Start(pid, 1), ev).state.worker[0] == Serving(Command(c, 0), 0);
  }

  lemma GiveUpAndClose(s: State, c: nat)
    requires c in s.conns && s.conns[c].phase.First? && BeingServed(s, c)
    ensures Run(s, [PopTimeout(c), PopTimeout(c), Close(c)]) == Fault
  {
    var ev := [PopTimeout(c), PopTimeout(c), Close(c)];
    assert ev[..0] == [] && ev[..3] == ev;
    RunStep(s, ev, 0);
    RunStep(s, ev, 1);
    RunStep(s, ev, 2);
    assert BeingServed(Run(s, ev[..2]).state, c);
  }

  lemma RunStep(s: State, events: seq<Event>, i: nat)
    requires i < |events| && Run(s, events[..i]).Next?
    ensures Run(s, events[..i + 1]) == Step(Run(s, events[..i]).state, events[i])
  {
    assert events[..i + 1][..i] == events[..i];
  }

  lemma {:induction false} RunAppend(s: State, a: seq<Event>, b: seq<Event>)
    requires Run(s, a).Next?
    ensures Run(s, a + b) == Run(Run(s, a).state, b)
  {
    if b == [] {
      assert a + b == a;
    } else {
      var n := |b| - 1;
      var t := Run(s, a).state;
      assert (a + b)[..|a| + n] == a + b[..n];
      RunAppend(s, a, b[..n]);
      assert Run(s, a + b) == Then(Run(s, a + b[..n]), b[n]) == Then(Run(t, b[..n]), b[n]) == Run(t, b);
    }
  }

  /** Timeouts included: the replies popped on an open connection are a prefix, in order, of the replies
      to the commands accepted for it. */
  lemma PoppedIsPrefix(pid: nat, endpoints: nat, events: seq<Event>, cid: nat)
    requires endpoints > 0 && Opens(events) <= CONID_LIMIT && Run(Start(pid, endpoints), events).Next?
    requires cid in Run(Start(pid, endpoints), events).state.conns
    ensures var conn := Run(Start(pid, endpoints), events).state.conns[cid];
            && TagsOf(conn.popped) <= RepliesTo(conn.accepted)
            && forall j | 0 <= j < |conn.accepted| :: conn.accepted[j].cid == cid
  {
    RunKeeps(pid, endpoints, events);
    assert Accounted(Run(Start(pid, endpoints), events).state, cid);
  }

  lemma {:induction false} RepliesToIndex(cmds: seq<Command>, m: nat)
    requires m < 2 * |cmds|
    ensures RepliesTo(cmds)[m] == Tag(cmds[m / 2].cid, cmds[m / 2].tid, m % 2)
  {
    var n := |cmds| - 1;
    if m < 2 * n {
      RepliesToIndex(cmds[..n], m);
    }
  }

  /** The next reply to pop is the one the handler is waiting for exactly when no reply to an earlier
      command is still outstanding. */
  lemma OwnReplyExactly(s: State, cid: nat)
    requires Inv(s) && cid in s.conns && StepPop(s, cid).Next?
    ensures var p := s.conns[cid].phase;
            s.reply[cid][0].tag == Tag(cid, p.tid, if p.First? then 0 else 1)
            <==> Outstanding(s.conns[cid]) == Expected(p)
    ensures s.reply[cid][0].tag.cid == cid && s.reply[cid][0].tag.k < 2
  {
    assert Accounted(s, cid);
    PopKeeps(s, cid);
    var conn := s.conns[cid];
    var m := |conn.popped|;
    assert RepliesTo(conn.accepted)[m] == Owed(s, cid)[0];
    RepliesToIndex(conn.accepted, m);
    var last := |conn.accepted| - 1;
    assert m / 2 < last ==> conn.accepted[m / 2].tid < conn.accepted[last].tid;
  }

  /** After a timeout it can fail: both pops give up, the worker then delivers both replies, and the next
      transaction finds the SET reply of the one before in front of its own. */
  lemma StaleReplyAfterTimeout(pid: nat)
    ensures var c := ConnId(pid, 1);
            var o := Run(Start(pid, 1), [Open, Push(c), PopTimeout(c), PopTimeout(c)]
                                        + [Dequeue(0), Deliver(0, false), Deliver(0, false), Push(c)]);
            && o.Next? && c in o.state.conns && o.state.conns[c].phase == First(1)
            && c in o.state.reply && |o.state.reply[c]| == 2 && o.state.reply[c][0].tag == Tag(c, 0, 0)
  {
    var c := ConnId(pid, 1);
    var s := GiveUpFirst(pid);
    ServeLate(s, c);
    RunAppend(Start(pid, 1), [Open, Push(c), PopTimeout(c), PopTimeout(c)],
              [Dequeue(0), Deliver(0, false), Deliver(0, false), Push(c)]);
  }

  lemma GiveUpFirst(pid: nat) returns (s: State)
    ensures var c := ConnId(pid, 1);
            && Run(Start(pid, 1), [Open, Push(c), PopTimeout(c), PopTimeout(c)]) == Next(s)
            && |s.order| == 1 && s.order[0] == [Command(c, 0)] && |s.worker| == 1 && s.worker[0] == Waiting
            && c in s.reply && s.reply[c] == [] && c in s.conns && s.conns[c].phase == Idle && s.conns[c].next == 1
  {
    var c := ConnId(pid, 1);
    var start := Start(pid, 1);
    var ev := [Open, Push(c), PopTimeout(c), PopTimeout(c)];
    assert ev[..0] == [] && ev[..4] == ev;
    RunStep(start, ev, 0);
    RunStep(start, ev, 1);
    var pushed := Run(start, ev[..2]).state;
    assert pushed.order[0] == [Command(c, 0)] && pushed.worker[0] == Waiting && pushed.reply[c] == [];
    RunStep(start, ev, 2);
    RunStep(start, ev, 3);
    s := Run(start, ev).state;
  }

  lemma ServeLate(s: State, c: nat)
    requires |s.order| == 1 && s.order[0] == [Command(c, 0)] && |s.worker| == 1 && s.worker[0] == Waiting
    requires c in s.reply && s.reply[c] == [] && c in s.conns && s.conns[c].phase == Idle && s.conns[c].next == 1
    ensures var o := Run(s, [Dequeue(0), Deliver(0, false), Deliver(0, false), Push(c)]);
            && o.Next? && c in o.state.conns && o.state.conns[c].phase == First(1)
            && c in o.state.reply && |o.state.reply[c]| == 2 && o.state.reply[c][0].tag == Tag(c, 0, 0)
  {
    var ev := [Dequeue(0), Deliver(0, false), Deliver(0, false), Push(c)];
    assert ev[..0] == [] && ev[..4] == ev;
    RunStep(s, ev, 0);
    var taken := Run(s, ev[..1]).state;
    assert taken.order[0] == [] && taken.worker[0] == Serving(Command(c, 0), 0);
    RunStep(s, ev, 1);
    RunStep(s, ev, 2);
    var served := Run(s, ev[..3]).state;
    assert |served.reply[c]| == 2 && served.reply[c][0].tag == Tag(c, 0, 0) && served.order[0] == [];
    RunStep(s, ev, 3);
  }

  /** When no pop has timed out, both pops return the replies to the transaction's own SET and GET, and
      at most two replies are queued on any connection. */
  lemma OwnRepliesWithoutTimeout(pid: nat, endpoints: nat, events: seq<Event>, cid: nat)
    requires endpoints > 0 && Opens(events) <= CONID_LIMIT && PopsInTime(events)
    requires Run(Start(pid, endpoints), events).Next?
    requires cid in Run(Start(pid, endpoints), events).state.conns
    ensures var s := Run(Start(pid, endpoints), events).state;
            var p := s.conns[cid].phase;
            && cid in s.reply && |s.reply[cid]| <= 2
            && (p == Idle ==> s.reply[cid] == [])
            && (p.First? && s.reply[cid] != [] ==> s.reply[cid][0].tag == Tag(cid, p.tid, 0))
            && (p.Second? && s.reply[cid] != [] ==> s.reply[cid][0].tag == Tag(cid, p.tid, 1))
  {
    RunKeeps(pid, endpoints, events);
    var s := Run(Start(pid, endpoints), events).state;
    assert Accounted(s, cid);
    assert |Owed(s, cid)| == Expected(s.conns[cid].phase);
    if s.conns[cid].phase != Idle && s.reply[cid] != [] {
      OwnReplyExactly(s, cid);
    }
  }

  // ---------------------------------------------------------------------- progress

  /** While no pop has timed out, the exchange cannot get stuck: a connection that waits for a reply can
      pop it, or the worker of its endpoint can take an order or deliver a reply. */
  lemma WaitingCanGoOn(pid: nat, endpoints: nat, events: seq<Event>, cid: nat)
    requires endpoints > 0 && Opens(events) <= CONID_LIMIT && PopsInTime(events)
    requires Run(Start(pid, endpoints), events).Next?
    requires cid in Run(Start(pid, endpoints), events).state.conns
    requires Run(Start(pid, endpoints), events).state.conns[cid].phase != Idle
    ensures var s := Run(Start(pid, endpoints), events).state;
            && |s.order| > 0
            && var i := Home(cid, |s.order|);
               StepPop(s, cid).Next? || StepDequeue(s, i).Next? || forall b :: StepDeliver(s, i, b).Next?
  {
    RunKeeps(pid, endpoints, events);
    var s := Run(Start(pid, endpoints), events).state;
    var i := Home(cid, |s.order|);
    assert |Owed(s, cid)| > 0;
    WorkersSound(s);
    if s.worker[i].Serving? {
      OwnRepliesWithoutTimeout(pid, endpoints, events, s.worker[i].cmd.cid);
    }
  }

  /** The channels hold no more than their capacity. */
  predicate Bounded(s: State) {
    && (forall i | 0 <= i < |s.order| :: |s.order[i]| <= ORDER_CAPACITY)
    && (forall cid | cid in s.reply :: |s.reply[cid]| <= REPLY_CAPACITY)
  }

  lemma StepBounded(s: State, e: Event)
    requires Bounded(s) && Step(s, e).Next?
    ensures Bounded(Step(s, e).state)
  {
  }

  lemma {:induction false} RunBounded(pid: nat, endpoints: nat, events: seq<Event>)
    requires endpoints > 0 && Run(Start(pid, endpoints), events).Next?
    ensures Bounded(Run(Start(pid, endpoints), events).state)
  {
    if events != [] {
      var before := events[..|events| - 1];
      RunBounded(pid, endpoints, before);
      StepBounded(Run(Start(pid, endpoints), before).state, events[|events| - 1]);
    }
  }

  /** Timeouts included, a worker with a command in hand is stuck exactly while the reply channel of that
      command's connection is full. */
  lemma WorkerStuckExactly(pid: nat, endpoints: nat, events: seq<Event>, i: nat, isNull: bool)
    requires endpoints > 0 && Opens(events) <= CONID_LIMIT && Run(Start(pid, endpoints), events).Next?
    requires i < |Run(Start(pid, endpoints), events).state.worker|
    requires Run(Start(pid, endpoints), events).state.worker[i].Serving?
    ensures var s := Run(Start(pid, endpoints), events).state;
            var cid := s.worker[i].cmd.cid;
            cid in s.reply && (StepDeliver(s, i, isNull) == Blocked <==> |s.reply[cid]| == REPLY_CAPACITY)
  {
    RunKeeps(pid, endpoints, events);
    RunBounded(pid, endpoints, events);
    WorkersSound(Run(Start(pid, endpoints), events).state);
  }
}
