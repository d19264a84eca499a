/** The mutable state of the redis module, src/modules/redis.hpp and redis.cpp, one method per stretch of
    code between two blocking calls. Each is one step of the protocol. */
module RedisModule {
  import opened Basics
  import opened Response
  import opened RedisProtocol
  import opened RedisHistory

  /** `"%lu_%u"` of a transaction: the value its SET stores. */
  function Value(cid: nat, tid: nat): Text {
    Decimal(cid) + "_" + Decimal(tid)
  }

  /** The text of a reply that redis did give: OK for the SET, the stored value for the GET of the same
      key right after it. */
  function Payload(tag: Tag): Text {
    if tag.k == 0 then "OK" else Value(tag.cid, tag.tid)
  }

  lemma UnderscoreAt(cid: nat, tid: nat)
    ensures var v := Value(cid, tid);
            var n := |Decimal(cid)|;
            v[..n] == Decimal(cid) && v[n] == '_' && v[n + 1..] == Decimal(tid)
            && forall k | 0 <= k < n :: v[k] != '_'
  {
    DecimalDigits(cid);
  }

  /** No two transactions store the same value. */
  lemma ValueDistinct(cid: nat, tid: nat, c: nat, t: nat)
    ensures Value(cid, tid) == Value(c, t) <==> cid == c && tid == t
  {
    UnderscoreAt(cid, tid);
    UnderscoreAt(c, t);
    if Value(cid, tid) == Value(c, t) {
      assert |Decimal(cid)| == |Decimal(c)|;
      DecimalRoundTrip(cid);
      DecimalRoundTrip(c);
      DecimalRoundTrip(tid);
      DecimalRoundTrip(t);
    }
  }

  /** The page says "same" about a reply exactly when it is the reply to the transaction's own GET. */
  lemma VerdictExactly(tag: Tag, cid: nat, tid: nat)
    requires tag.k < 2
    ensures Payload(tag) == Value(cid, tid) <==> tag == Tag(cid, tid, 1)
  {
    DecimalDigits(cid);
    assert Value(cid, tid)[0] == Decimal(cid)[0];
    ValueDistinct(tag.cid, tag.tid, cid, tid);
  }

  /** In a run in which no pop times out, the second reply is null exactly if redis gave none, and else
      the page says "same". */
  lemma SameWithoutTimeout(pid: nat, endpoints: nat, events: seq<Event>, cid: nat)
    requires endpoints > 0 && Opens(events) <= CONID_LIMIT && PopsInTime(events)
    requires Run(Start(pid, endpoints), events).Next?
    requires cid in Run(Start(pid, endpoints), events).state.conns
    requires Run(Start(pid, endpoints), events).state.conns[cid].phase.Second?
    ensures var s := Run(Start(pid, endpoints), events).state;
            var given := Given(Start(pid, endpoints), events, cid);
            cid in s.reply && (s.reply[cid] != [] ==>
                                 && Payload(s.reply[cid][0].tag) == Value(cid, s.conns[cid].phase.tid)
                                 && |s.conns[cid].popped| < |given|
                                 && s.reply[cid][0].isNull == given[|s.conns[cid].popped|])
  {
    OwnRepliesWithoutTimeout(pid, endpoints, events, cid);
    RunRecorded(pid, endpoints, events, cid);
  }

  /** What happens while a handler waits in one timed channel operation: the steps of the others, the
      state they lead to, and whether the time runs out. */
  datatype Wait = Wait(others: seq<Event>, reached: State, expired: bool)

  ghost predicate Endured(s: State, cid: nat, w: Wait, e: Event) {
    && Run(s, w.others) == Next(w.reached) && s.connected + Opens(w.others) <= CONID_LIMIT
    && (forall o | o in w.others :: !StepOf(o, cid))
    && Step(w.reached, e).Next?
  }

  function PushOf(w: Wait, cid: nat): Event {
    if w.expired then PushTimeout(cid) else Push(cid)
  }

  function PopOf(w: Wait, cid: nat): Event {
    if w.expired then PopTimeout(cid) else Pop(cid)
  }

  class RedisModule {
    const pid: nat
    /** `conid` of http_service::start, and how many connections it has numbered. */
    var conid: nat
    var order: seq<seq<Command>>
    var reply: map<nat, seq<Reply>>
    /** What each worker coroutine holds between two blocking calls. */
    var worker: seq<Worker>
    ghost var connected: nat
    ghost var conns: map<nat, Conn>

    ghost function Now(): State
      reads this
    {
      State(pid, connected, order, worker, reply, conns)
    }

    ghost predicate Valid()
      reads this
    {
      Inv(Now()) && conid == connected % CONID_LIMIT
    }

    constructor (pid: nat, endpoints: nat)
      requires endpoints > 0
      ensures Valid() && Now() == Start(pid, endpoints)
    {
      this.pid := pid;
      conid := 0;
      order := seq(endpoints, _ => []);
      worker := seq(endpoints, _ => Waiting);
      reply := map[];
      connected := 0;
      conns := map[];
      StartInv(pid, endpoints);
    }

    /** The next id in http_service::start and `on_connect_init`. */
    method ConnectInit() returns (cid: nat)
      requires Valid() && connected < CONID_LIMIT
      modifies this
      ensures Valid() && Now() == Step(old(Now()), Open).state && cid == ConnId(pid, connected)
      ensures cid !in old(conns) && reply == old(reply)[cid := []]
    {
      StepKeeps(Now(), Open);
      NewcomerIsNew(Now());
      CounterWraps(connected);
      conid := if conid + 1 == CONID_LIMIT then 0 else conid + 1;
      cid := pid * CONID_LIMIT + conid;
      assert cid == ConnId(pid, connected + 1);
      reply := reply[cid := []];
      conns := conns[cid := Conn(Idle, 0, [], [])];
      connected := connected + 1;
    }

    /** `on_connect_exit`, once the connection's coroutine has left its last handler. */
    method ConnectExit(cid: nat)
      requires Valid() && Step(Now(), Close(cid)).Next?
      modifies this`reply, this`conns
      ensures Valid() && Now() == Step(old(Now()), Close(cid)).state
      ensures cid !in reply && cid !in conns
      ensures forall c | c in old(reply) && c != cid :: c in reply && reply[c] == old(reply[c])
    {
      StepKeeps(Now(), Close(cid));
      reply := reply - {cid};
      conns := conns - {cid};
    }

    /** `TimedPush` of the transaction's command; `expired` when the time runs out first. */
    method PushOrder(cid: nat, tid: nat, expired: bool) returns (pushed: bool)
      requires Valid() && cid in conns && tid == conns[cid].next
      requires Step(Now(), if expired then PushTimeout(cid) else Push(cid)).Next?
      modifies this`order, this`conns
      ensures Valid() && pushed == !expired
      ensures Now() == Step(old(Now()), if expired then PushTimeout(cid) else Push(cid)).state
      ensures |order| > 0
      ensures var id := cid % |order|;
              order == if pushed then old(order)[id := old(order[id]) + [Command(cid, tid)]] else old(order)
      ensures conns[cid].next == tid + 1
    {
      StepKeeps(Now(), if expired then PushTimeout(cid) else Push(cid));
      ghost var c := conns[cid];
      if expired {
        conns := conns[cid := c.(next := c.next + 1)];
        return false;
      }
      HomeIsRemainder(cid, |order|);
      var id := cid % |order|;
      order := order[id := order[id] + [Command(cid, tid)]];
      conns := conns[cid := Conn(First(c.next), c.next + 1, c.accepted + [Command(cid, tid)], c.popped)];
      pushed := true;
    }

    /** `TimedPop` of a reply; `None` when the time runs out first. */
    method PopReply(cid: nat, expired: bool) returns (r: Option<Reply>)
      requires Valid() && Step(Now(), if expired then PopTimeout(cid) else Pop(cid)).Next?
      modifies this`reply, this`conns
      ensures Valid() && r.None? == expired
      ensures Now() == Step(old(Now()), if expired then PopTimeout(cid) else Pop(cid)).state
      ensures r.Some? ==> r.value == old(reply[cid][0]) && reply[cid] == old(reply[cid])[1..]
      ensures r.Some? ==>
                var c := old(conns[cid]);
                && r.value.tag.cid == cid && r.value.tag.k < 2
                && (r.value.tag == Tag(cid, c.phase.tid, if c.phase.First? then 0 else 1)
                    <==> Outstanding(c) == Expected(c.phase))
    {
      StepKeeps(Now(), if expired then PopTimeout(cid) else Pop(cid));
      ghost var c := conns[cid];
      if expired {
        conns := conns[cid := c.(phase := AfterPop(c.phase))];
        return None;
      }
      OwnReplyExactly(Now(), cid);
      r := Some(reply[cid][0]);
      reply := reply[cid := reply[cid][1..]];
      conns := conns[cid := c.(phase := AfterPop(c.phase), popped := c.popped + [r.value])];
    }

    /** The coroutine is suspended, and the others take their steps. */
    method Suspend(cid: nat, w: Wait, ghost e: Event)
      requires Valid() && cid in conns && Endured(Now(), cid, w, e)
      modifies this
      ensures Valid() && Now() == w.reached && cid in conns && conns[cid] == old(conns[cid])
    {
      OthersKeep(Now(), w.others, cid);
      order, worker, reply := w.reached.order, w.reached.worker, w.reached.reply;
      connected, conns := w.reached.connected, w.reached.conns;
      conid := w.reached.connected % CONID_LIMIT;
    }

    method AwaitPush(cid: nat, tid: nat, w: Wait) returns (pushed: bool)
      requires Valid() && cid in conns && tid == conns[cid].next && conns[cid].phase == Idle
      requires Endured(Now(), cid, w, PushOf(w, cid))
      modifies this
      ensures Valid() && pushed == !w.expired && Now() == Step(w.reached, PushOf(w, cid)).state
      ensures cid in conns && Outstanding(conns[cid]) == Outstanding(old(conns[cid])) + if pushed then 2 else 0
      ensures conns[cid].phase == (if pushed then First(tid) else Idle) && conns[cid].next == tid + 1
    {
      Suspend(cid, w, PushOf(w, cid));
      pushed := PushOrder(cid, tid, w.expired);
    }

    method AwaitPop(cid: nat, w: Wait) returns (r: Option<Reply>)
      requires Valid() && cid in conns && conns[cid].phase != Idle && Endured(Now(), cid, w, PopOf(w, cid))
      modifies this
      ensures Valid() && r.None? == w.expired && Now() == Step(w.reached, PopOf(w, cid)).state
      ensures cid in conns && Outstanding(conns[cid]) == Outstanding(old(conns[cid])) - if r.Some? then 1 else 0
      ensures conns[cid].phase == AfterPop(old(conns[cid].phase)) && conns[cid].next == old(conns[cid].next)
      ensures r.Some? ==> cid in w.reached.reply && w.reached.reply[cid] != [] && r.value == w.reached.reply[cid][0]
      ensures r.Some? ==>
                var c := old(conns[cid]);
                && r.value.tag.cid == cid && r.value.tag.k < 2
                && (r.value.tag == Tag(cid, c.phase.tid, if c.phase.First? then 0 else 1)
                    <==> Outstanding(c) == Expected(c.phase))
    {
      Suspend(cid, w, PopOf(w, cid));
      r := PopReply(cid, w.expired);
    }

    /** The exchange of `on_request_header`, whatever workers and other connections do meanwhile. The
        first reply is the transaction's own exactly when nothing was outstanding before the request; the
        second when also the first pop got a reply; and the page says "same" about it just then. What
        the request accepts and does not pop stays outstanding. */
    method OnRequestHeader(cid: nat, tid: nat, w0: Wait, w1: Wait, w2: Wait)
      returns (r1: Option<Reply>, r2: Option<Reply>, same: Option<bool>)
      requires Valid() && cid in conns && tid == conns[cid].next && conns[cid].phase == Idle
      requires Endured(Now(), cid, w0, PushOf(w0, cid))
      requires !w0.expired ==>
                 && Endured(Step(w0.reached, Push(cid)).state, cid, w1, PopOf(w1, cid))
                 && Endured(Step(w1.reached, PopOf(w1, cid)).state, cid, w2, PopOf(w2, cid))
      modifies this
      ensures Valid() && cid in conns && conns[cid].phase == Idle && conns[cid].next == tid + 1
      ensures r1.Some? ==> cid in w1.reached.reply && [r1.value] <= w1.reached.reply[cid]
      ensures r2.Some? ==> cid in w2.reached.reply && [r2.value] <= w2.reached.reply[cid]
      ensures r1.Some? <==> !w0.expired && !w1.expired
      ensures r2.Some? <==> !w0.expired && !w2.expired
      ensures r1.Some? ==> (r1.value.tag == Tag(cid, tid, 0) <==> Outstanding(old(conns[cid])) == 0)
      ensures r2.Some? ==> (r2.value.tag == Tag(cid, tid, 1) <==> Outstanding(old(conns[cid])) == 0 && r1.Some?)
      ensures same == if r2.None? || r2.value.isNull then None
                      else Some(Outstanding(old(conns[cid])) == 0 && r1.Some?)
      ensures Outstanding(conns[cid]) == Outstanding(old(conns[cid])) + (if w0.expired then 0 else 2)
                                         - (if r1.Some? then 1 else 0) - (if r2.Some? then 1 else 0)
    {
      OutstandingIsOwed(Now(), cid);
      r1, r2, same := None, None, None;
      var pushed := AwaitPush(cid, tid, w0);
      if pushed {
        r1 := AwaitPop(cid, w1);
        r2 := AwaitPop(cid, w2);
      }
      if r2.Some? && !r2.value.isNull {
        VerdictExactly(r2.value.tag, cid, tid);
        same := Some(Payload(r2.value.tag) == Value(cid, tid));
      }
    }

    /** The worker takes an order and looks up the connection: lines 95-100. */
    method WorkerDequeue(i: nat)
      requires Valid() && Step(Now(), Dequeue(i)).Next?
      modifies this`order, this`worker
      ensures Valid() && Now() == Step(old(Now()), Dequeue(i)).state
      ensures order == old(order)[i := old(order[i])[1..]]
      ensures var cmd := old(order[i][0]);
              worker == old(worker)[i := if cmd.cid in reply then Serving(cmd, 0) else Waiting]
    {
      StepKeeps(Now(), Dequeue(i));
      var cmd := order[i][0];
      order := order[i := order[i][1..]];
      if cmd.cid in reply {
        worker := worker[i := Serving(cmd, 0)];
      }
    }

    /** One turn of the reply loop: lines 106-112. */
    method WorkerDeliver(i: nat, isNull: bool)
      requires Valid() && Step(Now(), Deliver(i, isNull)).Next?
      modifies this`reply, this`worker
      ensures Valid() && Now() == Step(old(Now()), Deliver(i, isNull)).state
      ensures var Serving(cmd, done) := old(worker[i]);
              && cmd.cid in reply
              && reply[cmd.cid] == old(reply[cmd.cid]) + [Reply(Tag(cmd.cid, cmd.tid, done), isNull)]
              && worker == old(worker)[i := if done == 0 then Serving(cmd, 1) else Waiting]
    {
      StepKeeps(Now(), Deliver(i, isNull));
      var Serving(cmd, done) := worker[i];
      reply := reply[cmd.cid := reply[cmd.cid] + [Reply(Tags(cmd)[done], isNull)]];
      worker := worker[i := if done == 0 then Serving(cmd, 1) else Waiting];
    }
  }
}
