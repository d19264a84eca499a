/** The parser callbacks of src/codecs.cpp and the request they fill in, src/request.cpp. */
module Codec {
  import opened Basics
  import opened Fragments

  type Text = seq<Byte>

  // ------------------------------------------------------- URL and header text

  /** What the callbacks have stored. `inValue` is `state_field_value_`; `ok` is false once a callback
      has returned non-zero. */
  datatype Headers = Headers(url: Text, fields: seq<(Text, Text)>, inValue: bool, ok: bool)

  datatype Event = UrlPart(data: Text) | FieldPart(data: Text) | ValuePart(data: Text)

  const INITIAL := Headers([], [], true, true)

  function OnEvent(h: Headers, e: Event): Headers {
    var n := |h.fields|;
    match e
    case UrlPart(d) => h.(url := h.url + d)
    case FieldPart(d) =>
      if h.inValue then h.(inValue := false, fields := h.fields + [(d, [])])
      else if n == 0 then h.(ok := false)
      else h.(fields := h.fields[n - 1 := (h.fields[n - 1].0 + d, h.fields[n - 1].1)])
    case ValuePart(d) =>
      if n == 0 then h.(inValue := true, ok := false)
      else h.(inValue := true, fields := h.fields[n - 1 := (h.fields[n - 1].0, h.fields[n - 1].1 + d)])
  }

  /** The stored state after a series of callbacks. */
  function Feed(h: Headers, events: seq<Event>): Headers {
    if events == [] then h else OnEvent(Feed(h, events[..|events| - 1]), events[|events| - 1])
  }

  /** One header as its callbacks deliver it: name and value, each in some number of pieces. */
  datatype Pieces = Pieces(name: seq<Text>, value: seq<Text>)

  function UrlEvents(pieces: seq<Text>): seq<Event> {
    seq(|pieces|, i requires 0 <= i < |pieces| => UrlPart(pieces[i]))
  }

  function HeaderEvents(p: Pieces): seq<Event> {
    seq(|p.name|, i requires 0 <= i < |p.name| => FieldPart(p.name[i]))
    + seq(|p.value|, i requires 0 <= i < |p.value| => ValuePart(p.value[i]))
  }

  function AllEvents(headers: seq<Pieces>): seq<Event> {
    if headers == [] then []
    else AllEvents(headers[..|headers| - 1]) + HeaderEvents(headers[|headers| - 1])
  }

  function Joined(p: Pieces): (Text, Text) {
    (Flatten(p.name), Flatten(p.value))
  }

  function AllJoined(headers: seq<Pieces>): (r: seq<(Text, Text)>)
    ensures |r| == |headers|
  {
    seq(|headers|, i requires 0 <= i < |headers| => Joined(headers[i]))
  }

  /** Every name arrives in at least one piece, and so does every value that another header follows. */
  predicate Separated(headers: seq<Pieces>) {
    forall i | 0 <= i < |headers| ::
      |headers[i].name| > 0 && (i + 1 < |headers| ==> |headers[i].value| > 0)
  }

  lemma {:induction false} FeedAppend(h: Headers, a: seq<Event>, b: seq<Event>)
    ensures Feed(h, a + b) == Feed(Feed(h, a), b)
  {
    if b == [] {
      assert a + b == a;
    } else {
      var n := |b| - 1;
      assert (a + b)[..|a| + n] == a + b[..n];
      FeedAppend(h, a, b[..n]);
    }
  }

  lemma {:induction false} FeedUrl(h: Headers, pieces: seq<Text>)
    ensures Feed(h, UrlEvents(pieces)) == h.(url := h.url + Flatten(pieces))
  {
    if pieces == [] {
      assert h.url + [] == h.url;
    } else {
      var n := |pieces| - 1;
      assert UrlEvents(pieces)[..n] == UrlEvents(pieces[..n]);
      FeedUrl(h, pieces[..n]);
    }
  }

  /** Name pieces after a value open one new field and fill in its name. */
  lemma {:induction false} FeedName(h: Headers, pieces: seq<Text>)
    requires h.inValue && |pieces| > 0
    ensures Feed(h, HeaderEvents(Pieces(pieces, []))) ==
            h.(inValue := false, fields := h.fields + [(Flatten(pieces), [])])
  {
    var n := |pieces| - 1;
    var ev := HeaderEvents(Pieces(pieces, []));
    assert ev[..n] == HeaderEvents(Pieces(pieces[..n], []));
    if n > 0 {
      FeedName(h, pieces[..n]);
    } else {
      assert ev[..0] == [];
      FlattenOne(pieces[0]);
      assert pieces == [pieces[0]];
    }
  }

  /** Name pieces after a name only lengthen it. */
  lemma {:induction false} FeedMoreName(h: Headers, pieces: seq<Text>)
    requires !h.inValue && |h.fields| > 0
    ensures var g := Feed(h, HeaderEvents(Pieces(pieces, [])));
            !g.inValue && |g.fields| == |h.fields| && g.url == h.url
  {
    if |pieces| > 0 {
      var n := |pieces| - 1;
      assert HeaderEvents(Pieces(pieces, []))[..n] == HeaderEvents(Pieces(pieces[..n], []));
      FeedMoreName(h, pieces[..n]);
    }
  }

  lemma {:induction false} FeedValue(h: Headers, pieces: seq<Text>)
    ensures var g := Feed(h, HeaderEvents(Pieces([], pieces)));
            && |g.fields| == |h.fields| && g.inValue == (h.inValue || |pieces| > 0) && g.url == h.url
            && (|h.fields| > 0 ==>
                 var n := |h.fields| - 1;
                 g == h.(inValue := h.inValue || |pieces| > 0,
                         fields := h.fields[n := (h.fields[n].0, h.fields[n].1 + Flatten(pieces))]))
  {
    if |pieces| > 0 {
      var n := |pieces| - 1;
      assert HeaderEvents(Pieces([], pieces))[..n] == HeaderEvents(Pieces([], pieces[..n]));
      FeedValue(h, pieces[..n]);
      if |h.fields| > 0 {
        var v := h.fields[|h.fields| - 1].1;
        assert v + Flatten(pieces[..n]) + pieces[n] == v + Flatten(pieces);
      }
    } else if |h.fields| > 0 {
      var n := |h.fields| - 1;
      assert h.fields[n].1 + [] == h.fields[n].1;
    }
  }

  lemma HeaderSplit(h: Headers, p: Pieces)
    ensures Feed(h, HeaderEvents(p)) ==
            Feed(Feed(h, HeaderEvents(Pieces(p.name, []))), HeaderEvents(Pieces([], p.value)))
  {
    assert HeaderEvents(p) == HeaderEvents(Pieces(p.name, [])) + HeaderEvents(Pieces([], p.value));
    FeedAppend(h, HeaderEvents(Pieces(p.name, [])), HeaderEvents(Pieces([], p.value)));
  }

  /** A header whose callbacks come after a value, name first, is stored as sent. */
  lemma FeedHeader(h: Headers, p: Pieces)
    requires h.inValue && |p.name| > 0
    ensures Feed(h, HeaderEvents(p)) ==
            h.(inValue := |p.value| > 0, fields := h.fields + [Joined(p)])
  {
    HeaderSplit(h, p);
    FeedName(h, p.name);
    FeedValue(Feed(h, HeaderEvents(Pieces(p.name, []))), p.value);
    assert [] + Flatten(p.value) == Flatten(p.value);
  }

  /** Any other header does not add a field. */
  lemma FeedMerged(h: Headers, p: Pieces)
    requires !(h.inValue && |p.name| > 0)
    requires h.inValue || |h.fields| > 0
    ensures var g := Feed(h, HeaderEvents(p));
            |g.fields| == |h.fields| && (g.inValue || |g.fields| > 0) && g.url == h.url
  {
    HeaderSplit(h, p);
    if |p.name| > 0 {
      FeedMoreName(h, p.name);
    } else {
      assert HeaderEvents(Pieces(p.name, [])) == [];
    }
    FeedValue(Feed(h, HeaderEvents(Pieces(p.name, []))), p.value);
  }

  lemma SeparatedLast(headers: seq<Pieces>)
    requires headers != []
    ensures var n := |headers| - 1;
            Separated(headers) <==> Separated(headers[..n]) && |headers[n].name| > 0
                                    && (n > 0 ==> |headers[n - 1].value| > 0)
  {
    var n := |headers| - 1;
    assert forall i | 0 <= i < n :: headers[..n][i] == headers[i];
    assert n > 0 ==> headers[..n][n - 1] == headers[n - 1];
  }

  /** What is stored after all headers: never more fields than headers, as many exactly when the
      callbacks separate them, and then the right ones. */
  ghost predicate StoredAs(h: Headers, headers: seq<Pieces>, g: Headers) {
    && |g.fields| <= |headers| && (g.inValue || |g.fields| > 0) && g.url == h.url
    && (|g.fields| == |headers| <==> Separated(headers))
    && (Separated(headers) ==>
         g == h.(fields := AllJoined(headers),
                 inValue := headers == [] || |headers[|headers| - 1].value| > 0))
  }

  lemma {:induction false} FeedAll(h: Headers, headers: seq<Pieces>)
    requires h.inValue && h.fields == []
    ensures StoredAs(h, headers, Feed(h, AllEvents(headers)))
  {
    if headers != [] {
      var n := |headers| - 1;
      var g := Feed(h, AllEvents(headers[..n]));
      FeedAll(h, headers[..n]);
      FeedAppend(h, AllEvents(headers[..n]), HeaderEvents(headers[n]));
      StoredOneMore(h, headers, g);
    }
  }

  lemma StoredOneMore(h: Headers, headers: seq<Pieces>, g: Headers)
    requires headers != [] && StoredAs(h, headers[..|headers| - 1], g)
    ensures StoredAs(h, headers, Feed(g, HeaderEvents(headers[|headers| - 1])))
  {
    var n := |headers| - 1;
    var p := headers[n];
    SeparatedLast(headers);
    if g.inValue && |p.name| > 0 {
      FeedHeader(g, p);
      assert AllJoined(headers) == AllJoined(headers[..n]) + [Joined(p)];
    } else {
      FeedMerged(g, p);
    }
  }

  /** However the parser cuts the URL, the names and the values into callbacks, the stored URL is the
      one sent, and the stored header list is the one sent exactly when each header's callbacks can be
      told from the next one's. */
  lemma FragmentationInvisible(url: seq<Text>, headers: seq<Pieces>)
    ensures var g := Feed(INITIAL, UrlEvents(url) + AllEvents(headers));
            && g.url == Flatten(url)
            && (g.fields == AllJoined(headers) <==> Separated(headers))
            && (Separated(headers) ==> g.ok)
  {
    FeedAppend(INITIAL, UrlEvents(url), AllEvents(headers));
    FeedUrl(INITIAL, url);
    assert INITIAL.url + Flatten(url) == Flatten(url);
    FeedAll(INITIAL.(url := Flatten(url)), headers);
  }

  /** A callback is refused exactly in a run in which a value comes before any name. */
  lemma {:induction false} RefusedExactly(events: seq<Event>)
    ensures Feed(INITIAL, events).ok <==>
            forall j | 0 <= j < |events| && events[j].ValuePart? :: exists i :: 0 <= i < j && events[i].FieldPart?
    ensures Feed(INITIAL, events).fields == [] <==> forall i | 0 <= i < |events| :: !events[i].FieldPart?
    ensures Feed(INITIAL, events).fields == [] ==> Feed(INITIAL, events).inValue
  {
    if events != [] {
      var n := |events| - 1;
      RefusedExactly(events[..n]);
      assert forall i | 0 <= i < n :: events[..n][i] == events[i];
    }
  }

  // ---------------------------------------------------------- sorting and lookup

  /** `std::string` order: unsigned bytes, shorter first on a tie. */
  predicate Below(a: Text, b: Text) {
    b != [] && (a == [] || a[0] < b[0] || (a[0] == b[0] && Below(a[1..], b[1..])))
  }

  lemma {:induction false} BelowTotal(a: Text, b: Text)
    ensures !(Below(a, b) && Below(b, a))
    ensures (!Below(a, b) && !Below(b, a)) <==> a == b
  {
    if a != [] && b != [] && a[0] == b[0] {
      BelowTotal(a[1..], b[1..]);
      assert a == [a[0]] + a[1..] && b == [b[0]] + b[1..];
    }
  }

  lemma {:induction false} BelowTransitive(a: Text, b: Text, c: Text)
    ensures Below(a, b) && Below(b, c) ==> Below(a, c)
    ensures !Below(b, a) && !Below(c, b) ==> !Below(c, a)
  {
    BelowTotal(a, b);
    BelowTotal(b, c);
    if a != [] && b != [] && c != [] {
      BelowTransitive(a[1..], b[1..], c[1..]);
    }
  }

  /** The first differing byte decides, the lower byte being the lower text; a proper prefix is below. */
  lemma {:induction false} BelowDecided(a: Text, b: Text, r: nat)
    requires r <= |a| && r <= |b| && a[..r] == b[..r]
    ensures r < |a| && r < |b| && a[r] != b[r] ==> (Below(a, b) <==> a[r] < b[r])
    ensures r == |a| ==> (Below(a, b) <==> |a| < |b|)
  {
    if r > 0 {
      assert a[0] == a[..r][0] && b[0] == b[..r][0];
      assert a[1..][..r - 1] == a[..r][1..] && b[1..][..r - 1] == b[..r][1..];
      BelowDecided(a[1..], b[1..], r - 1);
    }
  }

  type Fields = seq<(Text, Text)>

  ghost predicate Sorted(f: Fields) {
    forall i, j | 0 <= i < j < |f| :: !Below(f[j].0, f[i].0)
  }

  /** What `std::sort` promises, and all of it: order by name, equal names in any order. */
  ghost predicate SortOf(before: Fields, after: Fields) {
    multiset(before) == multiset(after) && Sorted(after)
  }

  function Insert(f: Fields, x: (Text, Text)): Fields {
    if f == [] || !Below(f[0].0, x.0) then [x] + f else [f[0]] + Insert(f[1..], x)
  }

  function InsertionSort(f: Fields): Fields {
    if f == [] then [] else Insert(InsertionSort(f[1..]), f[0])
  }

  lemma {:induction false} InsertKeeps(f: Fields, x: (Text, Text))
    requires Sorted(f)
    ensures Sorted(Insert(f, x)) && multiset(Insert(f, x)) == multiset(f) + multiset{x}
  {
    if f == [] {
    } else if !Below(f[0].0, x.0) {
      forall j | 0 <= j < |f|
        ensures !Below(f[j].0, x.0)
      {
        BelowTransitive(x.0, f[0].0, f[j].0);
      }
    } else {
      var r := Insert(f[1..], x);
      InsertKeeps(f[1..], x);
      assert f == [f[0]] + f[1..];
      BelowTotal(f[0].0, x.0);
      forall j | 0 <= j < |r|
        ensures !Below(r[j].0, f[0].0)
      {
        assert r[j] in multiset(r);
        if r[j] != x {
          assert r[j] in f[1..];
          var k :| 0 <= k < |f[1..]| && f[1..][k] == r[j];
          assert f[k + 1] == r[j];
        }
      }
    }
  }

  lemma {:induction false} InsertionSortSorts(f: Fields)
    ensures SortOf(f, InsertionSort(f))
  {
    if f != [] {
      InsertionSortSorts(f[1..]);
      InsertKeeps(InsertionSort(f[1..]), f[0]);
      assert f == [f[0]] + f[1..];
    }
  }

  lemma SortedByBytes(f: Fields)
    requires Sorted(f)
    ensures forall i, j, r | 0 <= i < j < |f| && 0 <= r < |f[i].0| && r < |f[j].0| && f[i].0[..r] == f[j].0[..r] ::
              f[i].0[r] <= f[j].0[r]
    ensures forall i, j | 0 <= i < j < |f| :: !(f[j].0 < f[i].0)
  {
    forall i, j, r | 0 <= i < j < |f| && 0 <= r < |f[i].0| && r < |f[j].0| && f[i].0[..r] == f[j].0[..r]
      ensures f[i].0[r] <= f[j].0[r]
    {
      BelowDecided(f[j].0, f[i].0, r);
    }
    forall i, j | 0 <= i < j < |f| && f[j].0 <= f[i].0
      ensures |f[j].0| == |f[i].0|
    {
      BelowDecided(f[j].0, f[i].0, |f[j].0|);
    }
  }

  /** A sort neither invents nor loses a field. */
  lemma SortSameFields(before: Fields, after: Fields, x: (Text, Text))
    requires SortOf(before, after)
    ensures x in before <==> x in after
  {
    assert x in before <==> x in multiset(before);
    assert x in after <==> x in multiset(after);
  }

  // ----------------------------------------------------------------------- body

  /** A `slice`: the `len` bytes from `data` on. */
  datatype Slice = Slice(data: int, len: nat)

  function OnBody(kept: seq<Slice>, at: int, length: nat): seq<Slice> {
    var n := |kept|;
    if n == 0 then [Slice(at, length)]
    else if kept[n - 1].data + kept[n - 1].len == at
    then kept[n - 1 := Slice(kept[n - 1].data, kept[n - 1].len + length)]
    else kept + [Slice(at, length)]
  }

  function FeedBody(calls: seq<Slice>): seq<Slice> {
    if calls == [] then []
    else
      var c := calls[|calls| - 1];
      OnBody(FeedBody(calls[..|calls| - 1]), c.data, c.len)
  }

  /** The memory addresses a slice list covers, in order. */
  function Addresses(s: seq<Slice>): seq<int> {
    if s == [] then []
    else
      var c := s[|s| - 1];
      Addresses(s[..|s| - 1]) + seq(c.len, k requires 0 <= k < c.len => c.data + k)
  }

  predicate Adjacent(a: Slice, b: Slice) {
    a.data + a.len == b.data
  }

  /** Merging loses and reorders nothing: the kept slices cover the delivered bytes in delivery order,
      their sizes add up, and no two neighbours could still be merged. */
  lemma {:induction false} BodyKept(calls: seq<Slice>)
    ensures Addresses(FeedBody(calls)) == Addresses(calls)
    ensures forall i | 0 < i < |FeedBody(calls)| :: !Adjacent(FeedBody(calls)[i - 1], FeedBody(calls)[i])
  {
    if calls != [] {
      var c := calls[|calls| - 1];
      BodyKept(calls[..|calls| - 1]);
      OneMoreBody(FeedBody(calls[..|calls| - 1]), c);
    }
  }

  lemma OneMoreBody(kept: seq<Slice>, c: Slice)
    ensures Addresses(OnBody(kept, c.data, c.len)) ==
            Addresses(kept) + seq(c.len, k requires 0 <= k < c.len => c.data + k)
  {
    var n := |kept|;
    var after := OnBody(kept, c.data, c.len);
    var added := seq(c.len, k requires 0 <= k < c.len => c.data + k);
    if n > 0 && Adjacent(kept[n - 1], c) {
      var last := kept[n - 1];
      var had := seq(last.len, k requires 0 <= k < last.len => last.data + k);
      assert after[..n - 1] == kept[..n - 1];
      assert seq(after[n - 1].len, k requires 0 <= k < after[n - 1].len => after[n - 1].data + k) == had + added;
      assert Addresses(kept[..n - 1]) + (had + added) == Addresses(kept[..n - 1]) + had + added;
    } else {
      assert after == kept + [Slice(c.data, c.len)];
      assert after[..n] == kept;
    }
  }

  // -------------------------------------------------------------------- request

  class Request {
    var strurl: Text
    var fields: Fields
    var stateFieldValue: bool
    var headersCompleted: bool
    var messageCompleted: bool
    var bodybf: seq<Slice>
    var bodysz: nat
    /** Body callbacks so far. */
    ghost var calls: seq<Slice>

    ghost function Stored(ok: bool): Headers
      reads this
    {
      Headers(strurl, fields, stateFieldValue, ok)
    }

    ghost predicate BodyValid()
      reads this
    {
      bodybf == FeedBody(calls) && bodysz == |Addresses(calls)|
    }

    constructor ()
      ensures Stored(true) == INITIAL && BodyValid() && calls == []
      ensures !headersCompleted && !messageCompleted
    {
      strurl, fields, stateFieldValue := [], [], true;
      headersCompleted, messageCompleted := false, false;
      bodybf, bodysz := [], 0;
      calls := [];
    }

    method Reset()
      modifies this
      ensures Stored(true) == INITIAL && BodyValid() && calls == []
      ensures !headersCompleted && !messageCompleted
    {
      headersCompleted := false;
      messageCompleted := false;
      stateFieldValue := true;
      strurl := [];
      fields := [];
      bodybf := [];
      bodysz := 0;
      calls := [];
    }

    method OfUrl(data: Text)
      modifies this`strurl
      ensures Stored(true) == OnEvent(old(Stored(true)), UrlPart(data))
    {
      strurl := strurl + data;
    }

    /** Zero for success, as http_parser wants it. */
    method OfHeaderField(data: Text) returns (rc: nat)
      modifies this`fields, this`stateFieldValue
      ensures Stored(rc == 0) == OnEvent(old(Stored(true)), FieldPart(data))
    {
      if stateFieldValue {
        stateFieldValue := false;
        fields := fields + [(data, [])];
      } else {
        if fields == [] {
          return 1;
        }
        var n := |fields| - 1;
        fields := fields[n := (fields[n].0 + data, fields[n].1)];
      }
      rc := 0;
    }

    method OfHeaderValue(data: Text) returns (rc: nat)
      modifies this`fields, this`stateFieldValue
      ensures Stored(rc == 0) == OnEvent(old(Stored(true)), ValuePart(data))
    {
      stateFieldValue := true;
      if fields == [] {
        return 1;
      }
      var n := |fields| - 1;
      fields := fields[n := (fields[n].0, fields[n].1 + data)];
      rc := 0;
    }

    /** The part of `of_headers_complete` before the URL is cut up. */
    method OfHeadersComplete()
      modifies this`fields, this`headersCompleted
      ensures headersCompleted && SortOf(old(fields), fields)
      ensures forall i, j, r | 0 <= i < j < |fields| && 0 <= r < |fields[i].0| && r < |fields[j].0|
                               && fields[i].0[..r] == fields[j].0[..r] :: fields[i].0[r] <= fields[j].0[r]
      ensures forall i, j | 0 <= i < j < |fields| :: !(fields[j].0 < fields[i].0)
    {
      headersCompleted := true;
      InsertionSortSorts(fields);
      fields := InsertionSort(fields);
      SortedByBytes(fields);
    }

    method OfBody(at: int, length: nat)
      requires BodyValid()
      modifies this`bodybf, this`bodysz, this`calls
      ensures BodyValid() && calls == old(calls) + [Slice(at, length)]
      ensures bodysz == old(bodysz) + length
    {
      ghost var c := Slice(at, length);
      assert (calls + [c])[..|calls|] == calls;
      calls := calls + [c];
      bodysz := bodysz + length;
      if bodybf == [] {
        bodybf := [Slice(at, length)];
        return;
      }
      var n := |bodybf| - 1;
      if bodybf[n].data + bodybf[n].len == at {
        bodybf := bodybf[n := Slice(bodybf[n].data, bodybf[n].len + length)];
      } else {
        bodybf := bodybf + [Slice(at, length)];
      }
    }

    /** operator[] by name: `std::lower_bound` and a comparison. Any sort of the received fields will
        do; the value found is one that was received under the name. */
    method Lookup(name: Text) returns (value: Option<Text>)
      requires Sorted(fields)
      ensures value.Some? <==> exists i :: 0 <= i < |fields| && fields[i].0 == name
      ensures value.Some? ==> (name, value.value) in fields
      ensures forall received: Fields | SortOf(received, fields) ::
                && (value.Some? <==> exists i :: 0 <= i < |received| && received[i].0 == name)
                && (value.Some? ==> (name, value.value) in received)
    {
      var first := 0;
      var length := |fields|;
      while length > 0
        invariant 0 <= first && 0 <= length && first + length <= |fields|
        invariant forall i | 0 <= i < first :: Below(fields[i].0, name)
        invariant forall i | first + length <= i < |fields| :: !Below(fields[i].0, name)
        decreases length
      {
        var half := length / 2;
        var middle := first + half;
        BoundStep(fields, name, middle);
        if Below(fields[middle].0, name) {
          first := middle + 1;
          length := length - half - 1;
        } else {
          length := half;
        }
      }
      value := if first == |fields| || fields[first].0 != name then None else Some(fields[first].1);
      FoundAtBound(fields, name, first);
      forall received: Fields | SortOf(received, fields)
        ensures && (value.Some? <==> exists i :: 0 <= i < |received| && received[i].0 == name)
                && (value.Some? ==> (name, value.value) in received)
      {
        SameNames(received, fields, name);
        if value.Some? {
          SortSameFields(received, fields, (name, value.value));
        }
      }
    }
  }

  lemma BoundStep(f: Fields, name: Text, m: nat)
    requires Sorted(f) && m < |f|
    ensures Below(f[m].0, name) ==> forall i | 0 <= i <= m :: Below(f[i].0, name)
    ensures !Below(f[m].0, name) ==> forall i | m <= i < |f| :: !Below(f[i].0, name)
  {
    forall i | 0 <= i < |f|
      ensures Below(f[m].0, name) && i <= m ==> Below(f[i].0, name)
      ensures !Below(f[m].0, name) && m <= i ==> !Below(f[i].0, name)
    {
      if i < m {
        BelowTransitive(name, f[i].0, f[m].0);
      } else if m < i {
        BelowTransitive(name, f[m].0, f[i].0);
      }
    }
  }

  lemma FoundAtBound(f: Fields, name: Text, k: nat)
    requires Sorted(f) && k <= |f|
    requires forall i | 0 <= i < k :: Below(f[i].0, name)
    requires forall i | k <= i < |f| :: !Below(f[i].0, name)
    ensures (exists i :: 0 <= i < |f| && f[i].0 == name) <==> k < |f| && f[k].0 == name
  {
    BelowTotal(name, name);
    if i :| 0 <= i < |f| && f[i].0 == name && i > k {
      BelowTotal(f[k].0, name);
      assert !Below(f[i].0, f[k].0);
    }
  }

  lemma SameNames(before: Fields, after: Fields, name: Text)
    requires SortOf(before, after)
    ensures (exists i :: 0 <= i < |before| && before[i].0 == name) <==>
            (exists i :: 0 <= i < |after| && after[i].0 == name)
  {
    if i :| 0 <= i < |before| && before[i].0 == name {
      SortSameFields(before, after, before[i]);
    }
    if i :| 0 <= i < |after| && after[i].0 == name {
      SortSameFields(before, after, after[i]);
    }
  }
}
