/** asio::basic_streambuf of asio 1.10.8: a byte FIFO in one vector, with get and put positions that
    are moved back to the front when room runs out. */
module StreamBuf {
  import opened Basics

  const BUFFER_DELTA: nat := 128

  /** `pbump` and `gbump` take an int. */
  const INT_LIMIT: nat := 0x8000_0000

  /** `memmove` of the bytes from `g` to `p` to the front. */
  function MovedToFront(b: seq<Byte>, g: nat, p: nat): (r: seq<Byte>)
    requires g <= p <= |b|
    ensures |r| == |b|
  {
    b[g..p] + b[p - g..]
  }

  /** `reserve` moves the readable bytes before it finds that it must throw, and leaves the positions
      where they were. All contents survive a failed `prepare` exactly when nothing had been consumed,
      or the readable bytes fit in front of where they start. */
  lemma FailedPrepareKeepsExactly(g: nat, p: nat)
    requires g <= p
    ensures (g == 0 || g >= p - g) <==>
            forall b: seq<Byte> | |b| >= p :: MovedToFront(b, g, p)[g..p] == b[g..p]
  {
    if g == 0 || g >= p - g {
      forall b: seq<Byte> | |b| >= p
        ensures MovedToFront(b, g, p)[g..p] == b[g..p]
      {
        MoveKeeps(b, g, p);
      }
    } else {
      var b := MoveLoses(g, p);
    }
  }

  lemma MoveLoses(g: nat, p: nat) returns (b: seq<Byte>)
    requires 0 < g < p - g
    ensures |b| >= p && MovedToFront(b, g, p)[g..p] != b[g..p]
  {
    b := seq(p, i => if i == g then 1 else 0);
    assert MovedToFront(b, g, p)[g..p][0] == b[2 * g];
    assert b[g..p][0] == b[g];
  }

  lemma MoveReads(b: seq<Byte>, g: nat, p: nat)
    requires g <= p <= |b|
    ensures MovedToFront(b, g, p)[..p - g] == b[g..p]
    ensures g == 0 ==> MovedToFront(b, g, p) == b
  {
  }

  /** `resize` to a larger size. */
  function Grown(b: seq<Byte>, n: nat): (r: seq<Byte>)
    requires |b| <= n
    ensures |r| == n
  {
    b + seq(n - |b|, _ => 0)
  }

  lemma GrowReads(b: seq<Byte>, n: nat, p: nat)
    requires p <= |b| <= n
    ensures Grown(b, n)[..p] == b[..p]
  {
  }

  lemma Join(b: seq<Byte>, g: nat, p: nat, q: nat)
    requires g <= p <= q <= |b|
    ensures b[g..q] == b[g..p] + b[p..q]
  {
  }

  lemma MoveKeeps(b: seq<Byte>, g: nat, p: nat)
    requires g <= p <= |b| && (g == 0 || g >= p - g)
    ensures MovedToFront(b, g, p)[g..p] == b[g..p]
  {
  }

  lemma CommittedGrows(committed: seq<Byte>, consumed: nat, more: seq<Byte>)
    requires consumed <= |committed|
    ensures (committed + more)[consumed..] == committed[consumed..] + more
  {
  }

  class StreamBuf {
    const maxSize: nat
    var buffer: seq<Byte>
    /** Offsets of gptr, egptr, pptr and epptr; eback is always the front. */
    var gnext: nat
    var gend: nat
    var pnext: nat
    var pend: nat
    /** All bytes ever committed, and how many of them have been consumed. */
    ghost var committed: seq<Byte>
    ghost var consumed: nat

    /** The positions are in order and inside the vector, and the put area ends within the maximum. */
    ghost predicate Shape()
      reads this
    {
      gnext <= pnext && gend <= pnext && pnext <= pend <= maxSize && |buffer| == Max(pend, 1)
    }

    function Size(): (n: nat)
      requires Shape()
      reads this
      ensures n <= maxSize
    {
      pnext - gnext
    }

    /** `data()` */
    function Readable(): seq<Byte>
      requires Shape()
      reads this
    {
      buffer[gnext..pnext]
    }

    /** The readable bytes are the committed ones less the consumed ones. */
    ghost predicate Valid()
      reads this
    {
      Shape() && consumed <= |committed| && Readable() == committed[consumed..]
    }

    constructor (maxSize: nat)
      ensures Valid() && this.maxSize == maxSize && committed == [] && consumed == 0
      ensures gnext == pnext == 0 && pend == Min(maxSize, BUFFER_DELTA)
    {
      this.maxSize := maxSize;
      pend := Min(maxSize, BUFFER_DELTA);
      buffer := seq(Max(Min(maxSize, BUFFER_DELTA), 1), _ => 0);
      gnext, gend, pnext := 0, 0, 0;
      committed, consumed := [], 0;
    }

    /** False when `std::length_error` is thrown. */
    method Reserve(n: nat) returns (ok: bool)
      requires Shape()
      modifies this`buffer, this`gnext, this`gend, this`pnext, this`pend
      ensures Shape()
      ensures ok <==> old(Size()) + n <= maxSize
      ensures ok ==> Readable() == old(Readable()) && n <= pend - pnext
      ensures n <= old(pend - pnext) ==> gnext == old(gnext) && pnext == old(pnext) && buffer == old(buffer)
      ensures !ok ==> gnext == old(gnext) && pnext == old(pnext) && pend == old(pend)
                      && buffer == MovedToFront(old(buffer), gnext, pnext)
    {
      if n <= pend - pnext {
        return true;
      }
      var p := Compact();
      var e := pend;
      if n > e - p {
        if n <= maxSize && p <= maxSize - n {
          e := p + n;
          GrowReads(buffer, Max(e, 1), p);
          buffer := Grown(buffer, Max(e, 1));
        } else {
          return false;
        }
      }
      gnext, gend := 0, p;
      pnext, pend := p, e;
      ok := true;
    }

    /** Moves the readable bytes to the front, but not yet the positions. */
    method Compact() returns (p: nat)
      requires Shape()
      modifies this`buffer
      ensures p == pnext - gnext && buffer == MovedToFront(old(buffer), gnext, pnext)
      ensures buffer[..p] == old(Readable())
    {
      MoveReads(buffer, gnext, pnext);
      p := pnext;
      if gnext > 0 {
        p := p - gnext;
        buffer := MovedToFront(buffer, gnext, pnext);
      }
    }

    /** The caller may then write `n` bytes from `pnext` on. */
    method Prepare(n: nat) returns (ok: bool)
      requires Valid()
      modifies this`buffer, this`gnext, this`gend, this`pnext, this`pend
      ensures Shape()
      ensures ok <==> old(Size()) + n <= maxSize
      ensures ok ==> Valid() && Readable() == old(Readable()) && pnext + n <= pend
      ensures n <= old(pend - pnext) ==> gnext == old(gnext) && pnext == old(pnext) && buffer == old(buffer)
      ensures !ok ==> gnext == old(gnext) && pnext == old(pnext) && pend == old(pend)
                      && buffer == MovedToFront(old(buffer), gnext, pnext)
      ensures !ok && (old(gnext) == 0 || old(gnext) >= old(Size())) ==> Valid() && Readable() == old(Readable())
    {
      ok := Reserve(n);
      if !ok && (gnext == 0 || gnext >= pnext - gnext) {
        MoveKeeps(old(buffer), gnext, pnext);
      }
    }

    /** The caller's write into the prepared area. */
    method Write(at: nat, data: seq<Byte>)
      requires Valid() && pnext + at + |data| <= pend
      modifies this`buffer
      ensures Valid() && Readable() == old(Readable())
      ensures buffer[pnext + at..pnext + at + |data|] == data
      ensures buffer[..pnext + at] == old(buffer)[..pnext + at]
    {
      var s := pnext + at;
      buffer := buffer[..s] + data + buffer[s + |data|..];
      assert buffer[gnext..pnext] == old(buffer)[gnext..pnext];
    }

    /** Takes all of the put area if `n` is more. */
    method Commit(n: nat)
      requires Valid() && Min(n, pend - pnext) < INT_LIMIT
      modifies this`pnext, this`gend, this`committed
      ensures Valid() && pend == old(pend) && pnext == old(pnext) + Min(n, pend - old(pnext))
      ensures var m := Min(n, pend - old(pnext));
              && committed == old(committed) + buffer[old(pnext)..old(pnext) + m]
              && Readable() == old(Readable()) + buffer[old(pnext)..old(pnext) + m]
    {
      var m := if pnext + n > pend then pend - pnext else n;
      CommittedGrows(committed, consumed, buffer[pnext..pnext + m]);
      committed := committed + buffer[pnext..pnext + m];
      Join(buffer, gnext, pnext, pnext + m);
      pnext := pnext + m;
      gend := pnext;
    }

    /** A write into the prepared area, committed at once. */
    method Supply(data: seq<Byte>)
      requires Valid() && pnext + |data| <= pend && |data| < INT_LIMIT
      modifies this`buffer, this`pnext, this`gend, this`committed
      ensures Valid() && pend == old(pend) && pnext == old(pnext) + |data|
      ensures committed == old(committed) + data
    {
      Write(0, data);
      assert buffer[pnext..pnext + |data|] == data;
      Commit(|data|);
    }

    /** Takes all readable bytes if `n` is more. */
    method Consume(n: nat)
      requires Valid() && Min(n, Size()) < INT_LIMIT
      modifies this`gnext, this`gend, this`consumed
      ensures Valid() && committed == old(committed)
      ensures consumed == old(consumed) + Min(n, old(Size()))
      ensures Readable() == old(Readable())[Min(n, old(Size()))..]
    {
      if gend < pnext {
        gend := pnext;
      }
      var m := if gnext + n > pnext then pnext - gnext else n;
      gnext := gnext + m;
      consumed := consumed + m;
    }

    /** `overflow(c)` for a character: false when `std::length_error` is thrown. */
    method Overflow(c: Byte) returns (ok: bool)
      requires Valid()
      modifies this`buffer, this`gnext, this`gend, this`pnext, this`pend, this`committed
      ensures Shape()
      ensures ok <==> old(Size()) < maxSize
      ensures ok ==> Valid() && committed == old(committed) + [c] && Readable() == old(Readable()) + [c]
    {
      if pnext == pend {
        var size := pnext - gnext;
        if size < maxSize && maxSize - size < BUFFER_DELTA {
          ok := Reserve(maxSize - size);
        } else {
          ok := Reserve(BUFFER_DELTA);
        }
        if !ok {
          return;
        }
      }
      Put(c);
      ok := true;
    }

    /** `*pptr() = c` and `pbump(1)` */
    method Put(c: Byte)
      requires Valid() && pnext < pend
      modifies this`buffer, this`pnext, this`committed
      ensures Valid() && committed == old(committed) + [c] && Readable() == old(Readable()) + [c]
    {
      CommittedGrows(committed, consumed, [c]);
      buffer := buffer[pnext := c];
      committed := committed + [c];
      assert buffer[gnext..pnext + 1] == old(buffer)[gnext..pnext] + [c];
      pnext := pnext + 1;
    }
  }

  /** A buffer of at most four bytes with three of them written and committed. */
  method Filled(data: seq<Byte>) returns (sb: StreamBuf)
    requires |data| == 3
    ensures fresh(sb) && sb.Valid() && sb.maxSize == 4 && sb.gnext == 0 && sb.pnext == 3
    ensures sb.committed == data && sb.consumed == 0
  {
    sb := new StreamBuf(4);
    var ok := sb.Prepare(3);
    sb.Supply(data);
    assert sb.committed == [] + data;
  }

  lemma DoubledLast(b: seq<Byte>)
    requires |b| >= 3
    ensures MovedToFront(b, 1, 3)[1..3] == [b[2], b[2]]
  {
    var r := MovedToFront(b, 1, 3);
    assert r[1] == b[1..3][1] && r[2] == b[2..][0];
  }

  /** It does happen: with one of three committed bytes consumed and a maximum of four, a `prepare` of
      three throws and changes the two bytes that are still readable. */
  method PrepareLoses(a: Byte, b: Byte, c: Byte) returns (sb: StreamBuf, ok: bool)
    ensures fresh(sb) && sb.Shape() && !ok
    ensures sb.committed == [a, b, c] && sb.consumed == 1 && sb.Readable() == [c, c]
  {
    sb := Filled([a, b, c]);
    sb.Consume(1);
    ghost var was := sb.buffer;
    assert was[1..3] == [a, b, c][1..] == [b, c];
    assert was[2] == was[1..3][1];
    ok := sb.Prepare(3);
    DoubledLast(was);
  }
}
