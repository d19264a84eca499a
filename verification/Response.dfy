/** The response writer of src/response.cpp, and what a handler's response looks like on the wire. */
module Response {
  import opened Basics
  import opened Fragments
  import opened IoBuf

  type Text = seq<char>

  const CRLF: Text := "\r\n"

  /** A text that fits keeps all its characters but, if it fills the room, the last. */
  lemma LandedExactly(text: Text, avail: nat)
    requires |text| <= avail
    ensures forall i | 0 <= i < |text| - 1 :: Landed(text, avail)[i] == text[i]
    ensures text != [] ==>
              Landed(text, avail)[|text| - 1] == if |text| == avail then '\0' else text[|text| - 1]
  {
  }

  /** What one `printf` adds to the body when `avail` bytes are left in the last chunk: the text if it
      fits there or in a new chunk, nothing if it fits in neither. */
  function Added(text: Text, avail: nat, chunk: nat): Text {
    if |text| <= avail then Landed(text, avail)
    else if |text| <= chunk then Landed(text, chunk)
    else []
  }

  /** The count `printf` returns is the number of body bytes it adds exactly when the text is at most
      one chunk long. */
  lemma PrintfCountsExactly(text: Text, avail: nat, chunk: nat)
    requires avail <= chunk
    ensures |Added(text, avail, chunk)| == |text| <==> |text| <= chunk
  {
  }

  /** A text without NULs arrives unchanged exactly when it does not fill its room to the last byte. */
  lemma PrintfIntactExactly(text: Text, avail: nat, chunk: nat)
    requires avail <= chunk && '\0' !in text
    ensures Added(text, avail, chunk) == text <==> text == [] || (|text| != avail && |text| < chunk)
  {
    if text != [] {
      assert text[|text| - 1] in text;
    }
  }

  /** Room left in the last chunk after it. */
  function RoomAfter(text: Text, avail: nat, chunk: nat): nat {
    if |text| <= avail then avail - |text|
    else if |text| <= chunk then chunk - |text|
    else chunk
  }

  /** Room left after a series of `printf` calls, and what they add. */
  function RoomAfterAll(texts: seq<Text>, avail: nat, chunk: nat): nat {
    if texts == [] then avail
    else RoomAfter(texts[|texts| - 1], RoomAfterAll(texts[..|texts| - 1], avail, chunk), chunk)
  }

  function AddedAll(texts: seq<Text>, avail: nat, chunk: nat): Text {
    if texts == [] then []
    else
      var before := texts[..|texts| - 1];
      AddedAll(before, avail, chunk) + Added(texts[|texts| - 1], RoomAfterAll(before, avail, chunk), chunk)
  }

  function Lengths(texts: seq<Text>): nat {
    if texts == [] then 0 else Lengths(texts[..|texts| - 1]) + |texts[|texts| - 1]|
  }

  /** Texts that together fit the chunk in hand with a byte to spare arrive as they are, in order. */
  lemma {:induction false} AddedAllFits(texts: seq<Text>, avail: nat, chunk: nat)
    requires Lengths(texts) < avail
    ensures AddedAll(texts, avail, chunk) == Flatten(texts)
    ensures RoomAfterAll(texts, avail, chunk) == avail - Lengths(texts)
  {
    if texts != [] {
      AddedAllFits(texts[..|texts| - 1], avail, chunk);
    }
  }

  predicate AllWithin(texts: seq<Text>, chunk: nat) {
    forall t | t in texts :: |t| <= chunk
  }

  /** A series adds as many bytes as its results add up to exactly when no text is longer than a chunk. */
  lemma {:induction false} AddedAllCountsExactly(texts: seq<Text>, avail: nat, chunk: nat)
    requires avail <= chunk
    ensures |AddedAll(texts, avail, chunk)| <= Lengths(texts) && RoomAfterAll(texts, avail, chunk) <= chunk
    ensures |AddedAll(texts, avail, chunk)| == Lengths(texts) <==> AllWithin(texts, chunk)
  {
    if texts != [] {
      var n := |texts| - 1;
      AddedAllCountsExactly(texts[..n], avail, chunk);
      assert texts == texts[..n] + [texts[n]];
    }
  }

  function Digit(d: nat): char
    requires d < 10
  {
    '0' + d as char
  }

  /** `%d` of a non-negative number. */
  function Decimal(n: nat): (t: Text)
    ensures |t| > 0
  {
    if n < 10 then [Digit(n)] else Decimal(n / 10) + [Digit(n % 10)]
  }

  /** Reads a decimal back. */
  function ValueOf(t: Text): int {
    if t == [] then 0 else 10 * ValueOf(t[..|t| - 1]) + (t[|t| - 1] as int - '0' as int)
  }

  /** Digits only, and no leading zero. */
  lemma {:induction false} DecimalDigits(n: nat)
    ensures forall i | 0 <= i < |Decimal(n)| :: '0' <= Decimal(n)[i] <= '9'
    ensures Decimal(n)[0] == '0' <==> n == 0
  {
    if n >= 10 {
      DecimalDigits(n / 10);
    }
  }

  lemma {:induction false} DecimalRoundTrip(n: nat)
    ensures ValueOf(Decimal(n)) == n
  {
    if n >= 10 {
      DecimalRoundTrip(n / 10);
      assert Decimal(n)[..|Decimal(n)| - 1] == Decimal(n / 10);
    } else {
      assert Decimal(n)[..0] == [];
    }
  }

  function HeaderLine(field: Text, value: Text): Text {
    field + ": " + value + CRLF
  }

  /** Room left in the header chunk after a text that is kept if it fits and dropped otherwise. */
  function Kept(text: Text, avail: nat): nat {
    if |text| <= avail then avail - |text| else avail
  }

  /** Room left after several of them. */
  function KeptAll(texts: seq<Text>, avail: nat): nat {
    if texts == [] then avail else Kept(texts[|texts| - 1], KeptAll(texts[..|texts| - 1], avail))
  }

  /** Texts that leave room are all kept. */
  lemma {:induction false} KeptAllFits(texts: seq<Text>, avail: nat)
    requires Lengths(texts) <= avail
    ensures KeptAll(texts, avail) == avail - Lengths(texts)
  {
    if texts != [] {
      KeptAllFits(texts[..|texts| - 1], avail);
    }
  }

  /** `Overrun`: memory behind the chunk has been written. */
  datatype Outcome = Done | Thrown | Overrun

  /** The first of the two texts of `content_type`, and the second. */
  function TypeText(kind: Option<Text>): Text {
    "Content-Type: " + if kind.Some? then kind.value else "text/html"
  }

  function TypeTail(charset: Option<Text>): (t: Text)
    ensures t != []
  {
    if charset.Some? then "; charset=" + charset.value + CRLF else CRLF
  }

  lemma AddNothing(t: Text)
    ensures t + [] == t
  {
  }

  class Response {
    /** Chunk size of the pool. */
    const chunk: nat
    var header: seq<IoBuf>
    var body: seq<IoBuf>
    var status: int
    var alive: bool
    var eom: bool

    /** At least one body chunk, none of them twice. */
    ghost predicate BodyValid()
      reads this`body, body
    {
      && |body| > 0
      && (forall i, j | 0 <= i < j < |body| :: body[i] != body[j])
      && (forall b | b in body :: b.Valid() && b.size == chunk)
    }

    /** One header chunk that is no body chunk. */
    ghost predicate Valid()
      reads this, header, body
    {
      && BodyValid()
      && |header| == 1 && header[0] !in body && header[0].Valid() && header[0].size == chunk
    }

    ghost function Head(): Text
      requires Valid()
      reads this, header, body
    {
      header[0].Unread()
    }

    ghost function Body(): Text
      requires BodyValid()
      reads this`body, body
    {
      Bytes(body)
    }

    /** Room left in the last body chunk. */
    ghost function Room(): nat
      requires BodyValid()
      reads this`body, body
    {
      body[|body| - 1].Available()
    }

    constructor (chunk: nat)
      ensures Valid() && fresh(header) && fresh(body) && this.chunk == chunk
      ensures Head() == [] && Body() == [] && status == -1 && header[0].wpos == 0
    {
      this.chunk := chunk;
      status, alive, eom := -1, true, false;
      var h := new IoBuf(chunk);
      var b := new IoBuf(chunk);
      header := [h];
      body := [b];
      new;
      assert Bytes(body[..0]) == [];
    }

    /** `vsnprintf` into the room of the last body chunk, kept if it fits: lines 178-189. */
    method TryPrint(iov: IoBuf, text: Text) returns (fits: bool)
      requires BodyValid() && iov == body[|body| - 1]
      modifies iov`buff, iov`wpos
      ensures BodyValid() && fits == (|text| <= old(Room()))
      ensures Room() == old(Room()) - if fits then |text| else 0
      ensures fits ==> Body() == old(Body()) + Landed(text, old(Room()))
      ensures !fits ==> Body() == old(Body())
    {
      assert iov !in body[..|body| - 1];
      fits := iov.PrintText(text);
    }

    /** A new chunk at the end of the body. */
    method AddChunk() returns (iov: IoBuf)
      requires BodyValid()
      modifies this`body
      ensures BodyValid() && fresh(iov) && body == old(body) + [iov]
      ensures Body() == old(Body()) && Room() == chunk
    {
      iov := new IoBuf(chunk);
      body := body + [iov];
      assert body[..|body| - 1] == old(body);
    }

    /** One turn of the loop in `printf`: the text into the last chunk, or a new chunk. */
    method Attempt(iov: IoBuf, text: Text) returns (fits: bool, next: IoBuf)
      requires BodyValid() && iov == body[|body| - 1]
      modifies this`body, iov`buff, iov`wpos
      ensures BodyValid() && next == body[|body| - 1]
      ensures fits == (|text| <= old(Room()))
      ensures fits ==> body == old(body) && Room() == old(Room()) - |text|
                       && Body() == old(Body()) + Landed(text, old(Room()))
      ensures !fits ==> body == old(body) + [next] && fresh(next) && Room() == chunk && Body() == old(Body())
    {
      fits := TryPrint(iov, text);
      next := iov;
      if !fits {
        next := AddChunk();
      }
    }

    /** `printf` of a text as the format would produce it. */
    method Printf(text: Text) returns (r: int)
      requires BodyValid()
      modifies this`body, body[|body| - 1]
      ensures BodyValid() && (forall b | b in body && b !in old(body) :: fresh(b))
      ensures body[|body| - 1] == old(body[|body| - 1]) || fresh(body[|body| - 1])
      ensures r == |text|
      ensures Body() == old(Body()) + Added(text, old(Room()), chunk)
      ensures Room() == RoomAfter(text, old(Room()), chunk)
    {
      var iov := body[|body| - 1];
      var retry := 0;
      var fits := false;
      r := |text|;
      while retry < 2 && !fits
        invariant 0 <= retry <= 2 && BodyValid() && iov == body[|body| - 1]
        invariant old(body) <= body && forall i | |old(body)| <= i < |body| :: fresh(body[i])
        invariant if retry == 0 then body == old(body) else fresh(iov)
        invariant !fits ==> Body() == old(Body()) && Room() == if retry == 0 then old(Room()) else chunk
        invariant !fits && retry > 0 ==> |text| > old(Room())
        invariant !fits && retry > 1 ==> |text| > chunk
        invariant fits ==> Body() == old(Body()) + Added(text, old(Room()), chunk)
        invariant fits ==> Room() == RoomAfter(text, old(Room()), chunk)
        decreases 2 - retry, !fits
      {
        fits, iov := Attempt(iov, text);
        if !fits {
          retry := retry + 1;
        }
      }
      AddNothing(old(Body()));
    }

    /** A header text of `status`, `keep_alive` or `eom`, kept only if it fits. */
    method AppendHead(text: Text)
      requires Valid()
      modifies header[0]
      ensures Valid() && Body() == old(Body()) && Room() == old(Room())
      ensures header[0].Available() == Kept(text, old(header[0].Available()))
      ensures Head() == old(Head()) + if |text| <= old(header[0].Available())
                                      then Landed(text, old(header[0].Available())) else []
    {
      var iov := header[0];
      var fits := iov.PrintText(text);
    }

    /** `content_type`: two prints and one cursor move. The second print is given the room left as an
        unsigned number, so behind a text that does not fit it writes past the chunk; nothing is said then. */
    method ContentType(kind: Option<Text>, charset: Option<Text>) returns (r: Outcome)
      requires Valid()
      modifies header[0]
      ensures r == Thrown <==> status == -1
      ensures r == Overrun <==> status != -1 && |TypeText(kind)| > old(header[0].Available())
      ensures r != Overrun ==> Valid() && Body() == old(Body()) && Room() == old(Room())
      ensures r == Thrown ==> Head() == old(Head())
      ensures r == Done ==>
                var line := TypeText(kind) + TypeTail(charset);
                var avail := old(header[0].Available());
                && header[0].Available() == Kept(line, avail)
                && Head() == old(Head()) + if |line| <= avail then Landed(line, avail) else []
    {
      if status == -1 {
        return Thrown;
      }
      var iov := header[0];
      var text := TypeText(kind);
      if |text| > iov.Available() {
        iov.Print(0, text);
        return Overrun;
      }
      var fits := iov.PrintTwo(text, TypeTail(charset));
      r := Done;
    }

    /** `header(field, fmt, ...)` for one formatted value. False when it throws. */
    method Header(field: Text, value: Text) returns (ok: bool)
      requires Valid()
      modifies header[0]
      ensures Valid() && Body() == old(Body())
      ensures var line := HeaderLine(field, value);
              var avail := old(header[0].Available());
              && ok == (status != -1 && |line| <= avail)
              && Head() == old(Head()) + (if ok then Landed(line, avail) else [])
              && header[0].Available() == avail - if ok then |line| else 0
    {
      if status == -1 {
        return false;
      }
      var iov := header[0];
      var s := |value| + |field| + 4;
      if s > iov.Available() {
        return false;
      }
      assert field + ": " + value + CRLF == HeaderLine(field, value);
      iov.PrintThree(field + ": ", value, CRLF);
      ok := true;
    }
  }
}
