/** One chunk handed out by the pool, `struct iobuf` of src/iobufs.hpp, and the strings printed into it. */
module IoBuf {
  import opened Basics

  /** What `snprintf(p, n, "%s", text)` does to the `n` bytes at `p`: at most `n - 1` of them, then a
      NUL; nothing at all for `n == 0`. */
  function Printed(area: seq<char>, text: seq<char>): (r: seq<char>)
    ensures |r| == |area|
  {
    if area == [] then []
    else
      var k := Min(|text|, |area| - 1);
      text[..k] + ['\0'] + area[k + 1..]
  }

  /** The first `|text|` bytes after printing `text` into `avail` bytes. A text that fills the room
      exactly loses its last character to the NUL. */
  function Landed(text: seq<char>, avail: nat): (r: seq<char>)
    requires |text| <= avail
    ensures |r| == |text|
  {
    if text != [] && |text| == avail then text[avail - 1 := '\0'] else text
  }

  /** A whole chunk after printing at position `w`. */
  function PrintedAt(buff: seq<char>, w: nat, text: seq<char>): (r: seq<char>)
    requires w <= |buff|
    ensures |r| == |buff|
  {
    buff[..w] + Printed(buff[w..], text)
  }

  /** `line` stands at position `w`, and what comes before is as in `was`. */
  predicate LineAt(was: seq<char>, buff: seq<char>, w: nat, line: seq<char>) {
    && w + |line| <= |buff| == |was|
    && (forall k | 0 <= k < w :: buff[k] == was[k])
    && (forall k | 0 <= k < |line| :: buff[w + k] == line[k])
  }

  /** What a print leaves of a text: nothing to be kept if it does not fit. */
  function Shown(text: seq<char>, avail: nat): seq<char> {
    if |text| <= avail then Landed(text, avail) else []
  }

  lemma PrintedHere(buff: seq<char>, v: nat, text: seq<char>)
    requires v <= |buff|
    ensures LineAt(buff, PrintedAt(buff, v, text), v, Shown(text, |buff| - v))
  {
    var area := Printed(buff[v..], text);
    var shown := Shown(text, |buff| - v);
    assert forall k | 0 <= k < |shown| :: area[k] == shown[k];
  }

  /** A text behind an earlier one makes one line with it. */
  lemma LineGrows(was: seq<char>, mid: seq<char>, now: seq<char>, w: nat, before: seq<char>, tail: seq<char>)
    requires LineAt(was, mid, w, before) && LineAt(mid, now, w + |before|, tail)
    ensures LineAt(was, now, w, before + tail)
  {
    var line := before + tail;
    forall k | 0 <= k < |line|
      ensures now[w + k] == line[k]
    {
      if k >= |before| {
        assert now[w + |before| + (k - |before|)] == tail[k - |before|];
      } else {
        assert now[w + k] == mid[w + k];
      }
    }
  }

  lemma LineRead(was: seq<char>, buff: seq<char>, r: nat, w: nat, line: seq<char>)
    requires r <= w && LineAt(was, buff, w, line)
    ensures buff[r..w + |line|] == was[r..w] + line
  {
    var read := was[r..w] + line;
    forall k | 0 <= k < |read|
      ensures buff[r..w + |line|][k] == read[k]
    {
      if k >= w - r {
        assert buff[w + (k - (w - r))] == line[k - (w - r)];
      }
    }
  }

  lemma LandedSuffix(before: seq<char>, text: seq<char>, avail: nat)
    requires text != [] && |before| + |text| <= avail
    ensures before + Landed(text, avail - |before|) == Landed(before + text, avail)
  {
  }

  class IoBuf {
    const size: nat
    var wpos: nat
    var rpos: nat
    var buff: seq<char>

    ghost predicate Valid()
      reads this
    {
      rpos <= wpos <= size && |buff| == size
    }

    /** `iobuf_init` on a new chunk. */
    constructor (size: nat)
      ensures Valid() && this.size == size && wpos == 0 && rpos == 0
    {
      this.size := size;
      wpos, rpos := 0, 0;
      buff := seq(size, _ => '\0');
    }

    /** Written and not yet read. */
    function Unread(): (r: seq<char>)
      requires Valid()
      reads this
      ensures |r| == ReadLength()
    {
      buff[rpos..wpos]
    }

    function Available(): nat
      requires Valid()
      reads this
    {
      size - wpos
    }

    function ReadLength(): nat
      requires Valid()
      reads this
    {
      wpos - rpos
    }

    /** `iobuf_set_w_len` */
    method SetWLen(n: nat) returns (ok: bool)
      requires Valid()
      modifies this`wpos
      ensures Valid() && ok == (n <= old(Available()))
      ensures wpos == if ok then old(wpos) + n else old(wpos)
    {
      if wpos + n > size {
        return false;
      }
      wpos := wpos + n;
      ok := true;
    }

    /** `iobuf_set_r_len` */
    method SetRLen(n: nat) returns (ok: bool)
      requires Valid()
      modifies this`rpos
      ensures Valid() && ok == (n <= old(ReadLength()))
      ensures rpos == if ok then old(rpos) + n else old(rpos)
    {
      if rpos + n > wpos {
        return false;
      }
      rpos := rpos + n;
      ok := true;
    }

    /** A print at the write position followed by `iobuf_set_w_len` of the length the print returns:
        the text is kept if it fits, and dropped otherwise. */
    method PrintText(text: seq<char>) returns (fits: bool)
      requires Valid()
      modifies this`buff, this`wpos
      ensures Valid() && fits == (|text| <= old(Available()))
      ensures Unread() == old(Unread()) + if fits then Landed(text, old(Available())) else []
      ensures Available() == old(Available()) - if fits then |text| else 0
    {
      Print(0, text);
      LineRead(old(buff), buff, rpos, wpos, Shown(text, Available()));
      fits := SetWLen(|text|);
    }

    /** `line` stands at the write position, and what was written before is as in `was`. */
    ghost predicate HasLine(was: seq<char>, line: seq<char>)
      requires Valid()
      reads this
    {
      |line| <= Available() && LineAt(was, buff, wpos, line)
    }

    /** Three prints one after the other and one `iobuf_set_w_len`, as `http_response::header` writes a
        line that it has checked for room. They land as one print of the whole line. */
    method PrintThree(a: seq<char>, b: seq<char>, c: seq<char>)
      requires Valid() && c != [] && |a| + |b| + |c| <= Available()
      modifies this`buff, this`wpos
      ensures Valid() && Unread() == old(Unread()) + Landed(a + b + c, old(Available()))
      ensures Available() == old(Available()) - |a| - |b| - |c|
    {
      ghost var was := buff;
      PrintAfter(was, [], 0, a);
      assert [] + Landed(a, Available()) == a;
      PrintAfter(was, a, |a|, b);
      PrintAfter(was, a + b, |a| + |b|, c);
      LandedSuffix(a + b, c, Available());
      Keep(was, |a| + |b| + |c|, Landed(a + b + c, Available()));
    }

    /** Two prints, the second behind the first, and one `iobuf_set_w_len` over both. */
    method PrintTwo(a: seq<char>, b: seq<char>) returns (fits: bool)
      requires Valid() && b != [] && |a| <= Available()
      modifies this`buff, this`wpos
      ensures Valid() && fits == (|a + b| <= old(Available()))
      ensures Unread() == old(Unread()) + if fits then Landed(a + b, old(Available())) else []
      ensures Available() == old(Available()) - if fits then |a + b| else 0
    {
      ghost var was := buff;
      PrintAfter(was, [], 0, a);
      fits := |a| + |b| <= Available();
      if fits {
        assert [] + Landed(a, Available()) == a;
        PrintAfter(was, a, |a|, b);
        LandedSuffix(a, b, Available());
        Keep(was, |a| + |b|, Landed(a + b, Available()));
      } else {
        Print(|a|, b);
        LineRead(was, buff, rpos, wpos, []);
        fits := SetWLen(|a| + |b|);
      }
    }

    /** The next print of a line of which `before` is already there. */
    method PrintAfter(ghost was: seq<char>, ghost before: seq<char>, off: nat, text: seq<char>)
      requires Valid() && off == |before| && off + |text| <= Available() && HasLine(was, before)
      modifies this`buff
      ensures Valid() && HasLine(was, before + Landed(text, Available() - off))
    {
      ghost var mid := buff;
      Print(off, text);
      LineGrows(was, mid, buff, wpos, before, Landed(text, Available() - off));
    }

    /** `iobuf_set_w_len` over a printed line. */
    method Keep(ghost was: seq<char>, n: nat, ghost line: seq<char>)
      requires Valid() && HasLine(was, line) && n == |line|
      modifies this`wpos
      ensures Valid() && Unread() == was[rpos..old(wpos)] + line && Available() == old(Available()) - n
    {
      LineRead(was, buff, rpos, wpos, line);
      var ok := SetWLen(n);
    }

    /** `snprintf` at `off` bytes past the write position, into all the room left there. */
    method Snprintf(off: nat, text: seq<char>)
      requires Valid() && off <= Available()
      modifies this`buff
      ensures Valid() && buff == PrintedAt(old(buff), wpos + off, text)
    {
      buff := buff[..wpos + off] + Printed(buff[wpos + off..], text);
    }

    /** What that means for the bytes that count. */
    method Print(off: nat, text: seq<char>)
      requires Valid() && off <= Available()
      modifies this`buff
      ensures Valid() && LineAt(old(buff), buff, wpos + off, Shown(text, Available() - off))
    {
      PrintedHere(buff, wpos + off, text);
      Snprintf(off, text);
    }
  }

  /** The unread bytes of a list of chunks, in order. */
  ghost function Bytes(bufs: seq<IoBuf>): seq<char>
    requires forall b | b in bufs :: b.Valid()
    reads bufs
  {
    if bufs == [] then [] else Bytes(bufs[..|bufs| - 1]) + bufs[|bufs| - 1].Unread()
  }

  lemma {:induction false} BytesAppend(a: seq<IoBuf>, b: seq<IoBuf>)
    requires forall x | x in a + b :: x.Valid()
    ensures Bytes(a + b) == Bytes(a) + Bytes(b)
  {
    if b == [] {
      assert a + b == a;
    } else {
      var n := |b| - 1;
      var all := a + b;
      assert all[..|all| - 1] == a + b[..n] && all[|all| - 1] == b[n];
      assert forall x | x in a + b[..n] :: x in a + b;
      BytesAppend(a, b[..n]);
    }
  }
}
