/** A whole response: the redis handler's page, src/modules/redis.cpp:137-139 and 161-188, and the
    buffers process_request hands to the socket, src/server.cpp:260-271. */
module Page {
  import opened Basics
  import opened Fragments
  import opened IoBuf
  import opened Response

  const STATUS_LINES: Text := "HTTP/1.1 200 OK\r\nServer: cohttp/0.9.0\r\n"
  const HTML: Option<Text> := Some("text/html")

  function Connection(keep: bool): Text {
    "Connection: " + (if keep then "keep-alive" else "close") + CRLF
  }

  /** All header lines before Content-Length. `date` is the line with the current time. */
  function FirstLines(date: Text, keep: bool): Text {
    STATUS_LINES + date + Connection(keep) + (TypeText(HTML) + TypeTail(None))
  }

  function LengthLine(n: nat): Text {
    HeaderLine("Content-Length", Decimal(n))
  }

  /** What a reader of the header block finds behind its first `at` bytes: the declared length, and the end
      of the block. */
  predicate Declares(head: Text, at: nat, n: nat) {
    && at + 20 <= |head|
    && head[at..at + 16] == "Content-Length: " && head[|head| - 4..] == "\r\n\r\n"
    && ValueOf(head[at + 16..|head| - 4]) == n
    && forall i | at + 16 <= i < |head| - 4 :: '0' <= head[i] <= '9'
  }

  lemma LengthIsDeclared(lines: Text, n: nat)
    ensures Declares(lines + LengthLine(n) + CRLF, |lines|, n)
  {
    var head := lines + LengthLine(n) + CRLF;
    var digits := Decimal(n);
    assert head == lines + "Content-Length: " + digits + "\r\n\r\n" by {
      assert LengthLine(n) == "Content-Length: " + digits + "\r\n";
      assert "\r\n" + CRLF == "\r\n\r\n";
    }
    assert head[|lines| + 16..|head| - 4] == digits;
    DecimalRoundTrip(n);
    DecimalDigits(n);
    assert forall i | |lines| + 16 <= i < |head| - 4 :: head[i] == digits[i - |lines| - 16];
  }

  /** The lines of `keep_alive` and `content_type`, spelled out. */
  lemma KeepAliveSpelled()
    ensures Connection(true) == "Connection: keep-alive\r\n"
    ensures Connection(false) == "Connection: close\r\n"
  {
  }

  lemma TypeSpelled()
    ensures TypeText(HTML) + TypeTail(None) == "Content-Type: text/html\r\n"
  {
  }

  /** The pieces of the page in the order they are printed. */
  function PageTexts(first: Text, second: Text, verdict: Option<Text>): seq<Text> {
    [first, second] + if verdict.Some? then [verdict.value] else []
  }

  /** A page that fits the chunk in hand: the first reply line, the second, the verdict. */
  lemma SmallPage(first: Text, second: Text, verdict: Option<Text>, avail: nat, chunk: nat)
    requires Lengths(PageTexts(first, second, verdict)) < avail
    ensures AddedAll(PageTexts(first, second, verdict), avail, chunk) ==
            first + second + if verdict.Some? then verdict.value else []
  {
    AddedAllFits(PageTexts(first, second, verdict), avail, chunk);
    FlattenSnoc([], first);
    FlattenSnoc([first], second);
    assert [] + [first] == [first] && [first] + [second] == [first, second];
    if verdict.Some? {
      FlattenSnoc([first, second], verdict.value);
      assert [first, second] + [verdict.value] == PageTexts(first, second, verdict);
    } else {
      assert [first, second] + [] == [first, second];
    }
  }

  /** A header block that leaves at least one byte of its chunk. */
  predicate HeadFits(chunk: nat, date: Text, keep: bool, n: nat) {
    |FirstLines(date, keep)| + |LengthLine(n)| + |CRLF| < chunk
  }

  /** Room in the header chunk when `content_type` is called: earlier texts that do not fit are dropped. */
  function TypeRoom(chunk: nat, date: Text, keep: bool): nat {
    KeptAll([STATUS_LINES, date, Connection(keep)], chunk)
  }

  /** `content_type` writes inside its chunk. */
  predicate TypeInside(chunk: nat, date: Text, keep: bool) {
    |TypeText(HTML)| <= TypeRoom(chunk, date, keep)
  }

  lemma OfThree(a: Text, b: Text, c: Text, avail: nat)
    ensures Lengths([a, b, c]) == |a| + |b| + |c|
    ensures KeptAll([a, b, c], avail) == Kept(c, Kept(b, Kept(a, avail)))
  {
    assert [a, b, c][..2] == [a, b] && [a, b][..1] == [a] && [a][..0] == [];
    assert Lengths([a]) == |a| && KeptAll([a], avail) == Kept(a, avail);
    assert Lengths([a, b]) == |a| + |b| && KeptAll([a, b], avail) == Kept(b, Kept(a, avail));
  }

  lemma FittingIsInside(chunk: nat, date: Text, keep: bool, n: nat)
    ensures HeadFits(chunk, date, keep, n) ==> TypeInside(chunk, date, keep)
  {
    var c := Connection(keep);
    OfThree(STATUS_LINES, date, c, chunk);
    if HeadFits(chunk, date, keep, n) {
      KeptAllFits([STATUS_LINES, date, c], chunk);
    }
  }

  /** With chunks of 118 bytes and a date line of 36, a kept-alive page leaves 19 bytes for a text of 23:
      the line end is written at offset 122, behind the chunk. */
  lemma OverrunInSmallChunk(date: Text)
    requires |date| == 36
    ensures !TypeInside(118, date, true)
    ensures 118 - TypeRoom(118, date, true) + |TypeText(HTML)| == 122
  {
    OfThree(STATUS_LINES, date, Connection(true), 118);
    KeptAllFits([STATUS_LINES, date, Connection(true)], 118);
  }

  /** The page: two reply lines and, when the second reply is there, the verdict line. As long as
      `content_type` stays inside its chunk, the declared length is the number of body bytes exactly when
      every piece is at most one chunk long. The header block is complete exactly when it leaves a byte of
      its chunk, and then `content_type` does stay inside, and a reader of the block finds the number of body
      bytes if every piece is within a chunk. */
  method WritePage(rsp: Response, date: Text, keep: bool, first: Text, second: Text, verdict: Option<Text>)
    returns (inside: bool, ok: bool, n: nat)
    requires rsp.Valid() && rsp.Head() == [] && rsp.Body() == [] && rsp.header[0].Available() == rsp.chunk
    modifies rsp, rsp.header[0], rsp.body[|rsp.body| - 1]
    ensures inside <==> TypeInside(rsp.chunk, date, keep)
    ensures inside ==> rsp.Valid() && n == Lengths(PageTexts(first, second, verdict))
    ensures inside ==> rsp.Body() == AddedAll(PageTexts(first, second, verdict), old(rsp.Room()), rsp.chunk)
    ensures inside ==> (n == |rsp.Body()| <==> AllWithin(PageTexts(first, second, verdict), rsp.chunk))
    ensures HeadFits(rsp.chunk, date, keep, Lengths(PageTexts(first, second, verdict))) <==>
              inside && ok && rsp.Head() == FirstLines(date, keep) + LengthLine(n) + CRLF
    ensures var texts := PageTexts(first, second, verdict);
            HeadFits(rsp.chunk, date, keep, Lengths(texts)) && AllWithin(texts, rsp.chunk) ==>
              inside && Declares(rsp.Head(), |FirstLines(date, keep)|, |rsp.Body()|)
    ensures inside ==> rsp.status == 200 && rsp.alive == keep
    ensures inside && ok ==> rsp.eom
  {
    rsp.alive := keep;
    ghost var texts := PageTexts(first, second, verdict);
    AddedAllCountsExactly(texts, rsp.Room(), rsp.chunk);
    FittingIsInside(rsp.chunk, date, keep, Lengths(texts));
    inside, ok, n := WriteAround(rsp, STATUS_LINES, date, Connection(keep), HTML, first, second, verdict,
                                 FirstLines(date, keep));
    LengthIsDeclared(FirstLines(date, keep), n);
  }

  /** The same for any first lines. */
  method WriteAround(rsp: Response, status: Text, date: Text, connection: Text, kind: Option<Text>,
                     first: Text, second: Text, verdict: Option<Text>, ghost lines: Text)
    returns (inside: bool, ok: bool, n: nat)
    requires lines == status + date + connection + (TypeText(kind) + TypeTail(None))
    requires rsp.Valid() && rsp.Head() == [] && rsp.Body() == [] && rsp.header[0].Available() == rsp.chunk
    modifies rsp`status, rsp`eom, rsp`body, rsp.header[0], rsp.body[|rsp.body| - 1]
    ensures inside <==> |TypeText(kind)| <= KeptAll([status, date, connection], rsp.chunk)
    ensures inside ==> rsp.Valid() && n == Lengths(PageTexts(first, second, verdict))
    ensures inside ==> rsp.Body() == AddedAll(PageTexts(first, second, verdict), old(rsp.Room()), rsp.chunk)
    ensures inside ==> (|lines| + |LengthLine(n)| + |CRLF| < rsp.chunk <==>
                        ok && rsp.Head() == lines + LengthLine(n) + CRLF)
    ensures inside ==> rsp.status == 200
    ensures inside && ok ==> rsp.eom
  {
    rsp.status := 200;
    inside := StartHead(rsp, status, date, connection, kind, lines);
    ok, n := false, 0;
    if inside {
      n := WriteBody(rsp, first, second, verdict);
      ok := FinishHead(rsp, n, lines);
    }
  }

  lemma LastByteLost(before: Text, text: Text)
    requires text != [] && text[|text| - 1] != '\0'
    ensures before + Landed(text, |text|) != before + text
  {
    assert (before + text)[|before + text| - 1] == text[|text| - 1];
  }

  method FinishHead(rsp: Response, n: nat, ghost lines: Text) returns (ok: bool)
    requires rsp.Valid() && rsp.status != -1
    requires |lines| < rsp.chunk ==> rsp.Head() == lines && rsp.header[0].Available() == rsp.chunk - |lines|
    modifies rsp`eom, rsp.header[0]
    ensures rsp.Valid() && rsp.Body() == old(rsp.Body())
    ensures |lines| + |LengthLine(n)| + |CRLF| < rsp.chunk <==> ok && rsp.Head() == lines + LengthLine(n) + CRLF
    ensures ok ==> rsp.eom
  {
    ok := rsp.Header("Content-Length", Decimal(n));
    if ok {
      rsp.AppendHead(CRLF);
      rsp.eom := true;
    }
    LastByteLost(lines + LengthLine(n), CRLF);
    assert |rsp.Head()| <= rsp.chunk;
  }

  /** The header lines of `status`, its date, and `keep_alive`. */
  method StartLines(rsp: Response, status: Text, date: Text, connection: Text)
    requires rsp.Valid() && rsp.Head() == [] && rsp.header[0].Available() == rsp.chunk
    modifies rsp.header[0]
    ensures rsp.Valid() && rsp.Body() == old(rsp.Body()) && rsp.Room() == old(rsp.Room())
    ensures rsp.header[0].Available() == KeptAll([status, date, connection], rsp.chunk)
    ensures |status| + |date| + |connection| < rsp.chunk ==>
              && rsp.Head() == status + date + connection
              && rsp.header[0].Available() == rsp.chunk - |status| - |date| - |connection|
  {
    rsp.AppendHead(status);
    rsp.AppendHead(date);
    rsp.AppendHead(connection);
    OfThree(status, date, connection, rsp.chunk);
  }

  /** Those, and `content_type`. False when it wrote behind the chunk. */
  method StartHead(rsp: Response, status: Text, date: Text, connection: Text, kind: Option<Text>,
                   ghost lines: Text) returns (inside: bool)
    requires lines == status + date + connection + (TypeText(kind) + TypeTail(None))
    requires rsp.Valid() && rsp.Head() == [] && rsp.header[0].Available() == rsp.chunk && rsp.status != -1
    modifies rsp.header[0]
    ensures inside <==> |TypeText(kind)| <= KeptAll([status, date, connection], rsp.chunk)
    ensures inside ==> rsp.Valid() && rsp.Body() == old(rsp.Body()) && rsp.Room() == old(rsp.Room())
    ensures inside && |lines| < rsp.chunk ==>
              rsp.Head() == lines && rsp.header[0].Available() == rsp.chunk - |lines|
  {
    StartLines(rsp, status, date, connection);
    var r := rsp.ContentType(kind, None);
    inside := r == Done;
  }

  /** One more `printf` of a series that began with `avail` bytes of room. */
  method PrintNext(rsp: Response, ghost before: seq<Text>, text: Text, ghost avail: nat) returns (r: nat)
    requires rsp.Valid() && rsp.Body() == AddedAll(before, avail, rsp.chunk)
    requires rsp.Room() == RoomAfterAll(before, avail, rsp.chunk)
    modifies rsp`body, rsp.body[|rsp.body| - 1]
    ensures rsp.Valid() && rsp.Head() == old(rsp.Head())
    ensures rsp.header[0].Available() == old(rsp.header[0].Available())
    ensures rsp.body[|rsp.body| - 1] == old(rsp.body[|rsp.body| - 1]) || fresh(rsp.body[|rsp.body| - 1])
    ensures r == |text| && Lengths(before + [text]) == Lengths(before) + r
    ensures rsp.Body() == AddedAll(before + [text], avail, rsp.chunk)
    ensures rsp.Room() == RoomAfterAll(before + [text], avail, rsp.chunk)
  {
    assert (before + [text])[..|before|] == before;
    var n := rsp.Printf(text);
    r := n;
  }

  /** The two reply lines. */
  method WriteLines(rsp: Response, first: Text, second: Text) returns (n: nat)
    requires rsp.Valid() && rsp.Body() == []
    modifies rsp`body, rsp.body[|rsp.body| - 1]
    ensures rsp.Valid() && rsp.Head() == old(rsp.Head())
    ensures rsp.header[0].Available() == old(rsp.header[0].Available())
    ensures rsp.body[|rsp.body| - 1] == old(rsp.body[|rsp.body| - 1]) || fresh(rsp.body[|rsp.body| - 1])
    ensures n == Lengths([first, second])
    ensures rsp.Body() == AddedAll([first, second], old(rsp.Room()), rsp.chunk)
    ensures rsp.Room() == RoomAfterAll([first, second], old(rsp.Room()), rsp.chunk)
  {
    ghost var avail := rsp.Room();
    n := PrintNext(rsp, [], first, avail);
    assert [] + [first] == [first];
    var r := PrintNext(rsp, [first], second, avail);
    assert [first] + [second] == [first, second];
    n := n + r;
  }

  method WriteBody(rsp: Response, first: Text, second: Text, verdict: Option<Text>) returns (n: nat)
    requires rsp.Valid() && rsp.Body() == []
    modifies rsp`body, rsp.body[|rsp.body| - 1]
    ensures rsp.Valid() && rsp.Head() == old(rsp.Head())
    ensures rsp.header[0].Available() == old(rsp.header[0].Available())
    ensures n == Lengths(PageTexts(first, second, verdict))
    ensures rsp.Body() == AddedAll(PageTexts(first, second, verdict), old(rsp.Room()), rsp.chunk)
  {
    ghost var avail := rsp.Room();
    n := WriteLines(rsp, first, second);
    assert PageTexts(first, second, verdict) ==
           if verdict.Some? then [first, second] + [verdict.value] else [first, second];
    if verdict.Some? {
      var r := PrintNext(rsp, [first, second], verdict.value, avail);
      n := n + r;
    }
  }

  /** The non-empty buffers, header chunk first. What `write` sends is the header and then the body. */
  method Gather(rsp: Response) returns (obs: seq<Text>)
    requires rsp.Valid()
    ensures Flatten(obs) == rsp.Head() + rsp.Body()
    ensures forall o | o in obs :: o != []
  {
    obs := NonEmpty(rsp.header + rsp.body);
    BytesAppend(rsp.header, rsp.body);
    assert rsp.header[..0] == [] && Bytes(rsp.header) == [] + rsp.Head();
  }

  /** The loop at lines 262-268. */
  method NonEmpty(ob: seq<IoBuf>) returns (obs: seq<Text>)
    requires forall b | b in ob :: b.Valid()
    ensures Flatten(obs) == Bytes(ob)
    ensures forall o | o in obs :: o != []
  {
    obs := [];
    var i := 0;
    while i < |ob|
      invariant 0 <= i <= |ob|
      invariant Flatten(obs) == Bytes(ob[..i]) && forall o | o in obs :: o != []
    {
      assert ob[..i + 1][..i] == ob[..i];
      if ob[i].ReadLength() > 0 {
        FlattenSnoc(obs, ob[i].Unread());
        obs := obs + [ob[i].Unread()];
      }
      i := i + 1;
    }
    assert ob[..|ob|] == ob;
  }
}
