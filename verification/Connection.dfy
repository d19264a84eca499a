/** One connection of src/server.cpp with the parse loop of src/codecs.cpp: buffers, leftover bytes and
    timers over a whole keep-alive run. What the socket delivers, what the parser finds and when timers
    fire is arbitrary within the contracts of `ReadSome`, `Execute` and `Yield`. */
module Connection {
  import opened Basics
  import opened Fragments
  import opened IoBuf

  /** `http_errno` as far as the codec looks at it. */
  datatype Errno = Ok | HeadersStop | MessageStop | Bad

  /** The part of http_request the receive loops read. */
  datatype Progress = Progress(headers: bool, message: bool, errno: Errno)

  /** http_parser_execute on the `n` bytes offered: it consumes no more than those, all of them if it
      sets no error, and stops at the end of the headers and at the end of the message, once each. */
  ghost predicate ParserStep(n: nat, p: Progress, parsed: nat, q: Progress) {
    && parsed <= n
    && (q.errno == Ok ==> parsed == n && q.headers == p.headers && q.message == p.message)
    && (q.errno == HeadersStop ==> !p.headers && q.headers && q.message == p.message)
    && (q.errno == MessageStop ==> p.headers && q.headers && !p.message && q.message)
    && (q.errno == Bad ==> q.headers == p.headers && q.message == p.message)
  }

  /** What the matched module does with a request: which callbacks it asks for, and whether its response
      keeps the connection. */
  datatype Reaction = Reaction(onHeader: bool, onBody: bool, keepAlive: bool)

  /** How often `on_request_header` and `on_request_body` of a module have run. */
  datatype Calls = Calls(header: nat, body: nat)

  function Called(c: Calls, inBody: bool): Calls {
    if inBody then c.(body := c.body + 1) else c.(header := c.header + 1)
  }

  /** A request that has been run: the bytes consumed by it, and whether it kept the connection. */
  datatype Served = Served(part: seq<char>, keep: bool)

  function Parts(served: seq<Served>): (r: seq<seq<char>>)
    ensures |r| == |served|
  {
    seq(|served|, k requires 0 <= k < |served| => served[k].part)
  }

  lemma PartsAppend(served: seq<Served>, x: Served)
    ensures Flatten(Parts(served + [x])) == Flatten(Parts(served)) + x.part
  {
    assert Parts(served + [x]) == Parts(served) + [x.part];
    FlattenSnoc(Parts(served), x.part);
  }

  class Connection {
    const chunk: nat
    const maxHeader: nat
    const maxBody: nat
    /** `reqbuf` */
    var buf: seq<IoBuf>
    /** Every chunk that has been in the list. */
    ghost var owned: set<IoBuf>
    var timerIdle: nat
    var timerLife: nat
    /** Ids of the timers that can still fire, and the next id. 0 is the empty handle. */
    var idleArmed: set<nat>
    var lifeArmed: set<nat>
    var nextTimer: nat
    /** The socket has reported an error or the end of the stream. */
    var broken: bool
    /** The parser has reported an error. */
    ghost var refused: bool
    ghost var calls: Calls
    /** How often the socket has been given a response. */
    ghost var responses: nat
    /** All bytes the socket has delivered, and all bytes the parser has consumed. Only `SocketRead` and
        `Execute` write them. */
    ghost var received: seq<char>
    ghost var consumed: seq<char>
    /** The requests run so far, each with the bytes consumed from its first to its last line. */
    ghost var served: seq<Served>

    // ------------------------------------------------------------------ timers

    /** Only the timers in the handles can fire. */
    ghost predicate TimersOk()
      reads this
    {
      && nextTimer > 0 && timerIdle < nextTimer && timerLife < nextTimer
      && idleArmed <= {timerIdle} - {0} && lifeArmed <= {timerLife} - {0}
    }

    method PauseTimer()
      requires TimersOk()
      modifies this`idleArmed
      ensures TimersOk() && idleArmed == {}
    {
      if timerIdle != 0 {
        idleArmed := idleArmed - {timerIdle};
      }
    }

    method StartTimer()
      requires TimersOk()
      modifies this`idleArmed, this`timerIdle, this`nextTimer
      ensures TimersOk() && idleArmed == {timerIdle} && timerIdle >= old(nextTimer)
    {
      PauseTimer();
      timerIdle := nextTimer;
      idleArmed := idleArmed + {nextTimer};
      nextTimer := nextTimer + 1;
    }

    method ClearTimer()
      requires TimersOk()
      modifies this`idleArmed, this`lifeArmed, this`timerIdle, this`timerLife
      ensures TimersOk() && idleArmed == {} && lifeArmed == {} && timerIdle == timerLife == 0
    {
      if timerIdle != 0 {
        idleArmed := idleArmed - {timerIdle};
        timerIdle := 0;
      }
      if timerLife != 0 {
        lifeArmed := lifeArmed - {timerLife};
        timerLife := 0;
      }
    }

    /** `on_idle_expired` */
    method IdleExpired(id: nat)
      requires TimersOk() && id in idleArmed
      modifies this`idleArmed, this`timerIdle
      ensures TimersOk() && idleArmed == {} && timerIdle == 0
    {
      idleArmed := idleArmed - {id};
      timerIdle := 0;
    }

    /** `on_life_expired` */
    method LifeExpired(id: nat)
      requires TimersOk() && id in lifeArmed
      modifies this`lifeArmed, this`timerLife
      ensures TimersOk() && lifeArmed == {} && timerLife == 0
    {
      lifeArmed := lifeArmed - {id};
      timerLife := 0;
    }

    /** Any point where the coroutine is suspended: each armed timer may fire. */
    method Yield()
      requires TimersOk()
      modifies this`idleArmed, this`timerIdle, this`lifeArmed, this`timerLife
      ensures TimersOk() && idleArmed <= old(idleArmed) && lifeArmed <= old(lifeArmed)
    {
      var idle, life := *, *;
      if idle && timerIdle != 0 {
        if timerIdle in idleArmed {
          IdleExpired(timerIdle);
        }
      }
      if life && timerLife != 0 {
        if timerLife in lifeArmed {
          LifeExpired(timerLife);
        }
      }
    }

    // ----------------------------------------------------------------- buffers

    /** A non-empty list of chunks, none twice, all but the last fully read. */
    ghost predicate Chain()
      reads this`buf, this`owned, owned
    {
      && |buf| > 0 && (forall b | b in buf :: b in owned)
      && (forall i, j | 0 <= i < j < |buf| :: buf[i] != buf[j])
      && (forall b | b in buf :: b.Valid() && b.size == chunk)
      && (forall i | 0 <= i < |buf| - 1 :: buf[i].ReadLength() == 0)
    }

    function Last(): IoBuf
      requires |buf| > 0
      reads this`buf
    {
      buf[|buf| - 1]
    }

    /** Received but not consumed: the unread bytes of the last chunk. */
    ghost function Leftover(): seq<char>
      requires Chain()
      reads this`buf, this`owned, owned
    {
      Last().Unread()
    }

    /** Nothing lost, repeated or reordered: the consumed bytes and then the unread ones are the bytes
        received. */
    ghost predicate Streamed()
      requires Chain()
      reads this`buf, this`owned, owned, this`received, this`consumed
    {
      received == consumed + Leftover()
    }

    /** `got` bytes read in this request, at most `cap` before the last read: every chunk but the first
        and the last has been filled by them. */
    ghost predicate Filled(got: nat, cap: nat)
      requires Chain()
      reads this`buf, this`owned, owned
    {
      |buf| >= 2 ==> chunk * (|buf| - 2) + Last().wpos <= got && chunk * (|buf| - 2) <= cap
    }

    ghost predicate Ready()
      reads this, owned
    {
      TimersOk() && Chain() && Streamed()
    }

    /** http_parser_execute, up to its contract. It records what it has consumed of the text offered. */
    method Execute(ghost text: seq<char>, n: nat, p: Progress) returns (parsed: nat, q: Progress)
      requires n == |text|
      modifies this`refused, this`consumed
      ensures ParserStep(n, p, parsed, q)
      ensures consumed == old(consumed) + text[..parsed]
      ensures refused == (old(refused) || q.errno == Bad)
    {
      parsed :| parsed <= n;
      var what: nat := *;
      if what == 0 {
        parsed, q := n, p.(errno := Ok);
      } else if what == 1 && !p.headers {
        q := p.(headers := true, errno := HeadersStop);
      } else if what == 2 && p.headers && !p.message {
        q := p.(message := true, errno := MessageStop);
      } else {
        q := p.(errno := Bad);
        refused := true;
      }
      consumed := consumed + text[..parsed];
    }

    /** `http_codec::parse`: offers unread bytes until they are used up or the parser stops. */
    method Parse(p0: Progress) returns (p: Progress)
      requires Ready() && p0.errno == Ok && !refused
      modifies this`consumed, this`refused, Last()`rpos
      ensures Ready() && old(consumed) <= consumed
      ensures p.errno == if refused then Bad else Ok
      ensures p.errno == Ok && p.headers == p0.headers && p.message == p0.message ==> p0.message || Leftover() == []
      ensures (p0.headers ==> p.headers) && (p.message ==> p.headers || p0.message)
      ensures !p0.headers && !p0.message ==> !p.message
    {
      var iov := Last();
      p := p0;
      while iov.ReadLength() > 0 && !p.message && p.errno == Ok
        invariant Ready() && iov == Last() && old(consumed) <= consumed && refused == (p.errno == Bad)
        invariant p.errno == Ok ==> p == p0
        invariant p.errno == Bad ==> p.headers == p0.headers && p.message == p0.message
        invariant p.errno == HeadersStop ==> !p0.headers && p.headers && p.message == p0.message
        invariant p.errno == MessageStop ==> p0.headers && p.headers && p.message
        decreases p.errno == Ok, iov.ReadLength()
      {
        p := ParseOnce(iov, p);
      }
      if p.errno == MessageStop || p.errno == HeadersStop {
        p := p.(errno := Ok);
      }
    }

    /** One turn of its loop: lines 38-42. */
    method ParseOnce(iov: IoBuf, p: Progress) returns (q: Progress)
      requires Ready() && iov == Last()
      modifies this`consumed, this`refused, iov`rpos
      ensures Ready() && iov.ReadLength() <= old(iov.ReadLength())
      ensures consumed == old(consumed) + old(iov.Unread())[..old(iov.ReadLength()) - iov.ReadLength()]
      ensures ParserStep(old(iov.ReadLength()), p, old(iov.ReadLength()) - iov.ReadLength(), q)
      ensures refused == (old(refused) || q.errno == Bad)
    {
      var n := iov.ReadLength();
      ghost var text := iov.Unread();
      var parsed;
      parsed, q := Execute(text, n, p);
      assert text == text[..parsed] + text[parsed..];
      Take(iov, parsed);
    }

    /** `iobuf_set_r_len` after a parser call: the bytes passed over must be the ones consumed. */
    method Take(iov: IoBuf, n: nat)
      requires TimersOk() && Chain() && iov == Last() && n <= iov.ReadLength()
      requires received == consumed + iov.Unread()[n..]
      modifies iov`rpos
      ensures Ready() && iov.ReadLength() == old(iov.ReadLength()) - n
    {
      var ok := iov.SetRLen(n);
      assert iov.Unread() == old(iov.Unread())[n..];
    }

    /** The socket writes the bytes it delivers behind the written ones. False on an error or at the end
        of the stream. */
    method SocketRead(iov: IoBuf) returns (ok: bool, n: nat)
      requires TimersOk() && iov.Valid() && iov.Available() > 0 && !broken
      modifies this`received, this`broken, iov`buff,
               this`idleArmed, this`timerIdle, this`lifeArmed, this`timerLife
      ensures TimersOk() && iov.Valid() && ok == !broken && (if ok then 1 <= n <= iov.Available() else n == 0)
      ensures iov.Unread() == old(iov.Unread())
      ensures received == old(received) + iov.buff[iov.wpos..iov.wpos + n]
    {
      Yield();
      ok := *;
      if !ok {
        broken := true;
        return false, 0;
      }
      assert |['a']| == 1;
      var data: seq<char> :| 1 <= |data| <= iov.Available();
      n := |data|;
      iov.buff := iov.buff[..iov.wpos] + data + iov.buff[iov.wpos + n..];
      assert iov.buff[iov.rpos..iov.wpos] == old(iov.Unread());
      assert iov.buff[iov.wpos..iov.wpos + n] == data;
      received := received + data;
    }

    /** `read_some` into the room of the last chunk and `iobuf_set_w_len`. */
    method ReadSome() returns (ok: bool, n: nat)
      requires Ready() && Last().Available() > 0 && !broken
      modifies this`received, this`broken, Last()`buff, Last()`wpos,
               this`idleArmed, this`timerIdle, this`lifeArmed, this`timerLife
      ensures Ready() && consumed == old(consumed) && old(received) <= received
      ensures ok == !broken
      ensures if ok then 1 <= n <= old(Last().Available()) && |received| == old(|received|) + n
              else n == 0 && received == old(received)
      ensures Last().wpos == old(Last().wpos) + n
    {
      var iov := Last();
      ok, n := SocketRead(iov);
      if ok {
        assert iov.buff[iov.rpos..iov.wpos + n] == iov.Unread() + iov.buff[iov.wpos..iov.wpos + n];
        var fits := iov.SetWLen(n);
      }
    }

    /** Takes a new chunk when the last one is full: lines 175-178 and 226-229. */
    method MakeRoom(ghost got: nat, ghost cap: nat)
      requires Ready() && Leftover() == [] && chunk > 0 && Filled(got, cap) && got <= cap
      modifies this`buf, this`owned
      ensures Ready() && Leftover() == [] && Filled(got, cap) && Last().Available() > 0
      ensures fresh(owned - old(owned))
    {
      if Last().Available() == 0 {
        var iov := new IoBuf(chunk);
        FullChunks(chunk, |buf|);
        buf := buf + [iov];
        owned := owned + {iov};
      }
    }

    lemma FullChunks(c: nat, k: nat)
      ensures k >= 2 ==> c * (k - 1) == c * (k - 2) + c
      ensures k == 1 ==> c * (k - 1) == 0
    {
    }

    /** Room, and then one read into it. */
    method ReadMore(ghost got: nat, ghost cap: nat) returns (ok: bool, n: nat)
      requires Ready() && Leftover() == [] && chunk > 0 && Filled(got, cap) && got <= cap && !broken
      modifies this`buf, this`owned, this`received, this`broken, owned,
               this`idleArmed, this`timerIdle, this`lifeArmed, this`timerLife
      ensures Ready() && Filled(got + n, cap) && consumed == old(consumed) && old(received) <= received
      ensures fresh(owned - old(owned))
      ensures |received| == old(|received|) + n && ok == !broken && (n > 0 <==> ok)
    {
      MakeRoom(got, cap);
      ok, n := ReadSome();
    }

    /** One receive loop: lines 158-198 until the headers are complete, lines 209-249 until the message
        is. `prior` bytes were read in this request before. False when the request is given up. */
    method ReceiveLoop(inBody: bool, limit: nat, p0: Progress, ghost prior: nat, ghost cap: nat)
      returns (ok: bool, p: Progress, size: nat)
      requires Ready() && chunk > 0 && p0.errno == Ok && !p0.message && p0.headers == inBody
      requires prior + limit <= cap && Filled(prior, cap) && !broken && !refused && idleArmed == {timerIdle}
      modifies this`buf, this`owned, this`received, this`consumed, this`broken, this`refused, owned,
               this`idleArmed, this`timerIdle, this`lifeArmed, this`timerLife
      ensures Ready() && Filled(prior + size, cap)
      ensures fresh(owned - old(owned))
      ensures old(received) <= received && old(consumed) <= consumed
      ensures |received| == old(|received|) + size
      ensures ok <==> size <= limit && !refused && !broken
      ensures ok ==> p.errno == Ok && p.headers && p.message == inBody
    {
      size := 0;
      p := p0;
      while true
        invariant Ready() && size <= limit && Filled(prior + size, cap)
        invariant fresh(owned - old(owned))
        invariant old(received) <= received && old(consumed) <= consumed
        invariant |received| == old(|received|) + size
        invariant p.errno == Ok && !p.message && p.headers == inBody && !broken && !refused
        decreases limit - size
      {
        p := Parse(p);
        if p.errno != Ok {
          return false, p, size;
        }
        if (if inBody then p.message else p.headers) {
          break;
        }
        var more, n := ReadMore(prior + size, cap);
        size := size + n;
        if !more || size > limit {
          return false, p, size;
        }
      }
      ok := true;
    }

    /** A module's `on_request_header` or `on_request_body`: it may block, but the connection must not
        look idle meanwhile. */
    method Handler(inBody: bool)
      requires TimersOk() && idleArmed == {}
      modifies this`calls, this`idleArmed, this`timerIdle, this`lifeArmed, this`timerLife
      ensures TimersOk() && idleArmed == {}
      ensures calls == Called(old(calls), inBody)
    {
      calls := Called(calls, inBody);
      Yield();
    }

    /** One half of a request: receive under the idle timer, then let the module look without it. */
    method Half(inBody: bool, limit: nat, p0: Progress, handled: bool, ghost prior: nat, ghost cap: nat)
      returns (ok: bool, p: Progress, size: nat)
      requires Ready() && chunk > 0 && p0.errno == Ok && !p0.message && p0.headers == inBody
      requires prior + limit <= cap && Filled(prior, cap) && !broken && !refused
      modifies this`buf, this`owned, this`received, this`consumed, this`broken, this`refused, this`calls, owned,
               this`idleArmed, this`timerIdle, this`lifeArmed, this`timerLife, this`nextTimer
      ensures Ready() && Filled(prior + size, cap) && |idleArmed| <= 1
      ensures fresh(owned - old(owned))
      ensures old(received) <= received && old(consumed) <= consumed
      ensures |received| == old(|received|) + size
      ensures ok <==> size <= limit && !refused && !broken
      ensures ok ==> p.errno == Ok && p.headers && p.message == inBody && idleArmed == {}
      ensures calls == if ok && handled then Called(old(calls), inBody) else old(calls)
    {
      StartTimer();
      ok, p, size := ReceiveLoop(inBody, limit, p0, prior, cap);
      if ok {
        PauseTimer();
        if handled {
          Handler(inBody);
        }
      }
      AtMostOne();
    }

    /** There is never more than one idle timer that can fire, nor more than one life timer. */
    lemma AtMostOne()
      requires TimersOk()
      ensures |idleArmed| <= 1 && |lifeArmed| <= 1
    {
      SubsetOfOne(idleArmed, timerIdle);
      SubsetOfOne(lifeArmed, timerLife);
    }

    lemma SubsetOfOne(s: set<nat>, x: nat)
      requires s <= {x}
      ensures |s| <= 1
    {
      assert s == {} || s == {x};
    }

    /** `process_request`. It gives up on a socket error, a parser error or too many bytes; otherwise it
        runs the callbacks the module asks for, once each, and writes the response. */
    method ProcessRequest(reaction: Reaction)
      returns (keep: bool, ghost done: bool, ghost header: nat, ghost body: nat)
      requires Ready() && |buf| == 1 && chunk > 0 && !broken && !refused
      modifies this`buf, this`owned, this`received, this`consumed, this`broken, this`refused, this`calls, owned,
               this`idleArmed, this`timerIdle, this`lifeArmed, this`timerLife, this`nextTimer, this`served,
               this`responses
      ensures Ready() && |idleArmed| <= 1
      ensures fresh(owned - old(owned))
      ensures old(received) <= received && old(consumed) <= consumed
      ensures served == old(served) + [Served(consumed[|old(consumed)|..], keep)]
      ensures |received| == old(|received|) + header + body
      ensures |buf| <= 2 + (maxHeader + maxBody) / chunk
      ensures keep <==> header <= maxHeader && body <= maxBody && !refused && !broken && reaction.keepAlive
      ensures keep ==> idleArmed == {}
      ensures keep <==> done && !broken && reaction.keepAlive
      ensures done ==> calls.header == old(calls.header) + if reaction.onHeader then 1 else 0
      ensures done ==> calls.body == old(calls.body) + if reaction.onBody then 1 else 0
      ensures responses == old(responses) + if done then 1 else 0
      ensures !done ==> header > maxHeader || body > maxBody || refused || broken
      ensures done ==> header <= maxHeader && body <= maxBody && !refused
    {
      ghost var before := consumed;
      keep, done, header, body := ReceiveAndReply(reaction);
      ListBound(header + body, maxHeader + maxBody);
      served := served + [Served(consumed[|before|..], keep)];
    }

    /** Both halves of a request, and the response if neither gives up. */
    method ReceiveAndReply(reaction: Reaction)
      returns (keep: bool, ghost done: bool, ghost header: nat, ghost body: nat)
      requires Ready() && |buf| == 1 && chunk > 0 && !broken && !refused
      modifies this`buf, this`owned, this`received, this`consumed, this`broken, this`refused, this`calls, owned,
               this`idleArmed, this`timerIdle, this`lifeArmed, this`timerLife, this`nextTimer, this`responses
      ensures Ready() && |idleArmed| <= 1 && Filled(header + body, maxHeader + maxBody)
      ensures fresh(owned - old(owned))
      ensures old(received) <= received && old(consumed) <= consumed
      ensures |received| == old(|received|) + header + body
      ensures keep ==> idleArmed == {}
      ensures keep <==> done && !broken && reaction.keepAlive
      ensures done ==> calls.header == old(calls.header) + if reaction.onHeader then 1 else 0
      ensures done ==> calls.body == old(calls.body) + if reaction.onBody then 1 else 0
      ensures responses == old(responses) + if done then 1 else 0
      ensures !done ==> header > maxHeader || body > maxBody || refused || broken
      ensures done ==> header <= maxHeader && body <= maxBody && !refused
    {
      ghost var cap := maxHeader + maxBody;
      var ok, p, h := Half(false, maxHeader, Progress(false, false, Ok), reaction.onHeader, 0, cap);
      keep, done, header, body := false, false, h, 0;
      if ok {
        keep, done, body := BodyAndReply(p, reaction, h, cap);
      }
    }

    /** The second half, and the response. */
    method BodyAndReply(p: Progress, reaction: Reaction, ghost header: nat, ghost cap: nat)
      returns (keep: bool, ghost done: bool, ghost body: nat)
      requires Ready() && chunk > 0 && p.errno == Ok && !p.message && p.headers
      requires header + maxBody <= cap && Filled(header, cap) && !broken && !refused
      modifies this`buf, this`owned, this`received, this`consumed, this`broken, this`refused, this`calls, owned,
               this`idleArmed, this`timerIdle, this`lifeArmed, this`timerLife, this`nextTimer, this`responses
      ensures Ready() && |idleArmed| <= 1 && Filled(header + body, cap)
      ensures fresh(owned - old(owned))
      ensures old(received) <= received && old(consumed) <= consumed
      ensures |received| == old(|received|) + body
      ensures keep <==> done && !broken && reaction.keepAlive
      ensures keep ==> idleArmed == {}
      ensures calls == if done && reaction.onBody then Called(old(calls), true) else old(calls)
      ensures responses == old(responses) + if done then 1 else 0
      ensures !done ==> body > maxBody || refused || broken
      ensures done ==> body <= maxBody && !refused
    {
      var ok, q, b := Half(true, maxBody, p, reaction.onBody, header, cap);
      keep, done, body := false, ok, b;
      if ok {
        keep := SendResponse(reaction.keepAlive);
      }
    }

    /** The write and its result: lines 258-274 and 297. */
    method SendResponse(keepAlive: bool) returns (keep: bool)
      requires TimersOk() && !broken
      modifies this`broken, this`responses,
               this`idleArmed, this`timerIdle, this`lifeArmed, this`timerLife, this`nextTimer
      ensures TimersOk() && idleArmed == {} && |idleArmed| <= 1 && responses == old(responses) + 1
      ensures keep == (!broken && keepAlive)
    {
      StartTimer();
      WriteAll();
      PauseTimer();
      keep := !broken && keepAlive;
    }

    /** `asio::write`, under the idle timer. */
    method WriteAll()
      requires TimersOk() && idleArmed == {timerIdle}
      modifies this`broken, this`responses, this`idleArmed, this`timerIdle, this`lifeArmed, this`timerLife
      ensures TimersOk() && responses == old(responses) + 1
    {
      Yield();
      broken := *;
      responses := responses + 1;
    }

    lemma ListBound(got: nat, cap: nat)
      requires Chain() && chunk > 0 && Filled(got, cap)
      ensures |buf| <= 2 + cap / chunk
    {
      if |buf| >= 2 {
        Quotient(chunk, |buf| - 2, cap);
      }
    }

    lemma Quotient(c: nat, k: nat, n: nat)
      requires c > 0 && c * k <= n
      ensures k <= n / c
    {
      if n / c < k {
        Multiple(n / c, k, c);
      }
    }

    constructor (chunk: nat, maxHeader: nat, maxBody: nat, limited: bool)
      ensures TimersOk() && idleArmed == {} && buf == [] && owned == {} && !broken && !refused
      ensures received == [] && consumed == [] && served == []
      ensures lifeArmed == if limited then {timerLife} else {}
      ensures this.chunk == chunk && this.maxHeader == maxHeader && this.maxBody == maxBody
    {
      this.chunk := chunk;
      this.maxHeader := maxHeader;
      this.maxBody := maxBody;
      buf, owned := [], {};
      broken, refused, calls, responses := false, false, Calls(0, 0), 0;
      timerIdle, idleArmed := 0, {};
      received, consumed, served := [], [], [];
      if limited {
        timerLife, lifeArmed, nextTimer := 1, {1}, 2;
      } else {
        timerLife, lifeArmed, nextTimer := 0, {}, 1;
      }
    }

    /** The destructor: afterwards no timer can fire on the connection. */
    method Destroy()
      requires TimersOk()
      modifies this`idleArmed, this`lifeArmed, this`timerIdle, this`timerLife
      ensures idleArmed == {} && lifeArmed == {}
    {
      ClearTimer();
    }

    /** Drops fully read chunks from the front: lines 317-324. */
    method DropRead()
      requires Chain() && Streamed()
      modifies this`buf
      ensures if old(Leftover()) == [] then buf == [] else Chain() && Streamed() && buf == [old(Last())]
      ensures old(Leftover()) == [] ==> received == consumed
    {
      var last := Last();
      while true
        invariant Chain() && Streamed() && Last() == last && forall b | b in buf :: b in old(buf)
        invariant Leftover() == old(Leftover())
        decreases |buf|
      {
        var iov := buf[0];
        if iov.ReadLength() == 0 {
          buf := buf[1..];
          if buf == [] {
            return;
          }
        } else {
          break;
        }
      }
    }

    /** Between two requests: an empty list with everything consumed, or one chunk with leftover bytes. */
    ghost predicate Between()
      reads this, owned
    {
      TimersOk() && if buf == [] then received == consumed else Ready() && |buf| == 1
    }

    /** One turn of the loop in `parse`: lines 310-324. `ProcessRequest` asks for a list of exactly one
        chunk, so every request of a run starts with one. */
    method Turn(reaction: Reaction) returns (keep: bool)
      requires Between() && chunk > 0 && !broken && !refused
      modifies this`buf, this`owned, this`received, this`consumed, this`broken, this`refused, this`calls, owned,
               this`idleArmed, this`timerIdle, this`lifeArmed, this`timerLife, this`nextTimer, this`served,
               this`responses
      ensures Between() && fresh(owned - old(owned)) && (keep ==> !broken && !refused && reaction.keepAlive)
      ensures old(received) <= received && old(consumed) <= consumed
      ensures served == old(served) + [Served(consumed[|old(consumed)|..], keep)]
    {
      if buf == [] {
        var iov := new IoBuf(chunk);
        buf := [iov];
        owned := owned + {iov};
      }
      ghost var done, header, body;
      keep, done, header, body := ProcessRequest(reaction);
      DropRead();
    }

    /** `parse`, for at most `turns` requests: it runs `txn` of them, every one but the last kept the
        connection, and the last did not unless all turns are used up. The bytes received are the parts
        consumed by one request after the other, and then what is still unread. */
    method Serve(turns: nat, modules: seq<Reaction>) returns (txn: nat)
      requires Between() && buf == [] && owned == {} && consumed == [] && served == [] && !broken && !refused
      requires chunk > 0 && |modules| >= turns
      modifies this`buf, this`owned, this`received, this`consumed, this`broken, this`refused, this`calls,
               this`idleArmed, this`timerIdle, this`lifeArmed, this`timerLife, this`nextTimer, this`served,
               this`responses
      ensures Between() && |served| == txn <= turns
      ensures forall k | 0 <= k < txn - 1 :: served[k].keep
      ensures forall k | 0 <= k < txn && served[k].keep :: modules[k].keepAlive
      ensures txn < turns ==> txn > 0 && !served[txn - 1].keep
      ensures received == Flatten(Parts(served)) + if buf == [] then [] else Leftover()
    {
      txn := 0;
      var keep := true;
      while keep && txn < turns
        invariant |served| == txn <= turns && Between() && fresh(owned) && (keep ==> !broken && !refused)
        invariant forall k | 0 <= k < txn :: served[k].keep == (k < txn - 1 || keep)
        invariant forall k | 0 <= k < txn && served[k].keep :: modules[k].keepAlive
        invariant !keep ==> txn > 0
        invariant Flatten(Parts(served)) == consumed
        decreases turns - txn
      {
        ghost var before, earlier := consumed, served;
        keep := Turn(modules[txn]);
        PartsAppend(earlier, Served(consumed[|before|..], keep));
        txn := txn + 1;
      }
    }
  }
}
