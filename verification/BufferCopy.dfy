/** Copying between buffer sequences, buffer.hpp of asio 1.10.8. Buffers are address ranges of one
    memory; a sequence stands for the list of its addresses in order. */
module BufferCopy {
  import opened Basics

  datatype Buffer = Buffer(data: nat, size: nat)

  /** `b + start`: the buffer without its first `start` bytes, the null buffer if there are fewer. */
  function Plus(b: Buffer, start: nat): Buffer {
    if start > b.size then Buffer(0, 0) else Buffer(b.data + start, b.size - start)
  }

  /** `buffer(b, max)` */
  function Limit(b: Buffer, max: nat): Buffer {
    Buffer(b.data, if b.size < max then b.size else max)
  }

  function Addrs(b: Buffer): (r: seq<nat>)
    ensures |r| == b.size
  {
    seq(b.size, k requires 0 <= k < b.size => b.data + k)
  }

  function AddrList(frags: seq<Buffer>): seq<nat> {
    if frags == [] then [] else Addrs(frags[0]) + AddrList(frags[1..])
  }

  /** The addresses from offset `off` of fragment `i` on. */
  function Rest(frags: seq<Buffer>, i: nat, off: nat): seq<nat>
    requires i <= |frags|
  {
    if i == |frags| then [] else Addrs(Plus(frags[i], off)) + AddrList(frags[i + 1..])
  }

  ghost predicate NoRepeat(s: seq<nat>) {
    forall i, j | 0 <= i < j < |s| :: s[i] != s[j]
  }

  /** What the callers of memcpy owe: all addresses in memory, target bytes distinct, no overlap between
      target and source. Source fragments may overlap each other. */
  ghost predicate Separate(length: nat, t: seq<nat>, s: seq<nat>) {
    && (forall j | 0 <= j < |t| :: t[j] < length)
    && (forall j | 0 <= j < |s| :: s[j] < length)
    && NoRepeat(t)
    && (forall j, k | 0 <= j < |t| && 0 <= k < |s| :: t[j] != s[k])
  }

  /** The first `n` target addresses hold the first `n` source bytes; nothing else changed. */
  ghost predicate Copied(before: seq<Byte>, after: seq<Byte>, t: seq<nat>, s: seq<nat>, n: nat)
    requires Separate(|before|, t, s) && n <= |t| && n <= |s|
  {
    && |after| == |before|
    && (forall j | 0 <= j < n :: after[t[j]] == before[s[j]])
    && (forall a | 0 <= a < |before| && a !in t[..n] :: after[a] == before[a])
  }

  function Read(mem: seq<Byte>, addrs: seq<nat>): (r: seq<Byte>)
    requires forall j | 0 <= j < |addrs| :: addrs[j] < |mem|
    ensures |r| == |addrs|
  {
    seq(|addrs|, j requires 0 <= j < |addrs| => mem[addrs[j]])
  }

  /** Seen as flattened sequences: the target starts with the source and keeps its own rest, and the
      source still reads the same. */
  lemma CopiedFlat(before: seq<Byte>, after: seq<Byte>, t: seq<nat>, s: seq<nat>, n: nat)
    requires Separate(|before|, t, s) && n <= |t| && n <= |s|
    requires Copied(before, after, t, s, n)
    ensures Read(after, t) == Read(before, s)[..n] + Read(before, t)[n..]
    ensures Read(after, s) == Read(before, s)
  {
    forall j | 0 <= j < |t|
      ensures after[t[j]] == if j < n then before[s[j]] else before[t[j]]
    {
      if j >= n {
        assert t[j] !in t[..n];
      }
    }
    forall k | 0 <= k < |s|
      ensures after[s[k]] == before[s[k]]
    {
      assert s[k] !in t[..n];
    }
  }

  /** Taking `m` bytes off the current fragment and, if that was all of it, moving on. */
  lemma RestStep(frags: seq<Buffer>, i: nat, off: nat, m: nat)
    requires i < |frags| && off <= frags[i].size && m <= Plus(frags[i], off).size
    ensures m <= |Rest(frags, i, off)|
    ensures Rest(frags, i, off)[..m] == Addrs(Plus(frags[i], off))[..m]
    ensures m == Plus(frags[i], off).size ==> Rest(frags, i, off)[m..] == Rest(frags, i + 1, 0)
    ensures m < Plus(frags[i], off).size ==> Rest(frags, i, off)[m..] == Rest(frags, i, off + m)
  {
    var head := Addrs(Plus(frags[i], off));
    var tail := AddrList(frags[i + 1..]);
    if m < |head| {
      assert head[m..] == Addrs(Plus(frags[i], off + m));
      assert (head + tail)[m..] == head[m..] + tail;
    } else {
      assert (head + tail)[m..] == tail;
      RestStart(frags, i + 1);
    }
  }

  lemma RestStart(frags: seq<Buffer>, i: nat)
    requires i <= |frags|
    ensures Rest(frags, i, 0) == AddrList(frags[i..])
  {
    if i < |frags| {
      assert frags[i..][0] == frags[i] && frags[i..][1..] == frags[i + 1..];
    }
  }

  lemma CopiedStep(before: seq<Byte>, mid: seq<Byte>, after: seq<Byte>, t: seq<nat>, s: seq<nat>, n: nat, m: nat)
    requires Separate(|before|, t, s) && n + m <= |t| && n + m <= |s|
    requires Copied(before, mid, t, s, n) && |after| == |mid|
    requires forall j | n <= j < n + m :: after[t[j]] == mid[s[j]]
    requires forall a | 0 <= a < |mid| && a !in t[n..n + m] :: after[a] == mid[a]
    ensures Copied(before, after, t, s, n + m)
  {
    forall j | 0 <= j < n + m
      ensures after[t[j]] == before[s[j]]
    {
      if j < n {
        assert t[j] !in t[n..n + m];
      } else {
        assert s[j] !in t[..n];
      }
    }
    forall a | 0 <= a < |before| && a !in t[..n + m]
      ensures after[a] == before[a]
    {
      assert t[..n + m] == t[..n] + t[n..n + m];
    }
  }

  /** One buffer to one buffer: `memcpy` of the shorter length. */
  method CopyOne(mem: array<Byte>, target: Buffer, source: Buffer) returns (n: nat)
    requires Separate(mem.Length, Addrs(target), Addrs(source))
    modifies mem
    ensures n == Min(target.size, source.size)
    ensures Copied(old(mem[..]), mem[..], Addrs(target), Addrs(source), n)
  {
    n := if target.size < source.size then target.size else source.size;
    ghost var t := Addrs(target);
    ghost var s := Addrs(source);
    assert n > 0 ==> t[n - 1] == target.data + n - 1 < mem.Length;
    assert n > 0 ==> s[n - 1] == source.data + n - 1 < mem.Length;
    assert forall j, k | 0 <= j < n && 0 <= k < n :: t[j] != s[k];
    forall k | 0 <= k < n {
      mem[target.data + k] := mem[source.data + k];
    }
    AddrsMembers(target, n);
  }

  lemma AddrsMembers(b: Buffer, n: nat)
    requires n <= b.size
    ensures forall a: nat :: a in Addrs(b)[..n] <==> b.data <= a < b.data + n
  {
    forall a: nat | b.data <= a < b.data + n
      ensures a in Addrs(b)[..n]
    {
      assert Addrs(b)[..n][a - b.data] == a;
    }
  }

  /** A prefix of the current fragment is the next stretch of the address list. */
  lemma SliceOf(t: seq<nat>, total: nat, frags: seq<Buffer>, i: nat, off: nat, b: Buffer)
    requires i < |frags| && off <= frags[i].size
    requires total <= |t| && t[total..] == Rest(frags, i, off)
    requires b.data == Plus(frags[i], off).data && b.size <= Plus(frags[i], off).size
    ensures total + b.size <= |t| && Addrs(b) == t[total..total + b.size]
  {
    var r := Rest(frags, i, off);
    assert r[..b.size] == Addrs(b);
    assert t[total..][..b.size] == t[total..total + b.size];
  }

  /** The addresses not yet copied are those from offset `off` of fragment `i` on. */
  ghost predicate At(t: seq<nat>, total: nat, frags: seq<Buffer>, i: nat, off: nat) {
    && total <= |t| && i <= |frags| && (i < |frags| ==> off <= frags[i].size)
    && t[total..] == Rest(frags, i, off)
  }

  /** Place after `m` bytes of the current fragment: the update of iterator and offset in the loop. */
  function Advanced(frags: seq<Buffer>, i: nat, off: nat, m: nat): (nat, nat)
    requires i < |frags|
  {
    if m == Plus(frags[i], off).size then (i + 1, 0) else (i, off + m)
  }

  lemma RestAdvanced(t: seq<nat>, total: nat, frags: seq<Buffer>, i: nat, off: nat, m: nat)
    requires i < |frags| && off <= frags[i].size && m <= Plus(frags[i], off).size
    requires total + m <= |t| && t[total..] == Rest(frags, i, off)
    ensures var (i', off') := Advanced(frags, i, off, m);
            At(t, total + m, frags, i', off')
  {
    RestStep(frags, i, off, m);
    assert t[total + m..] == t[total..][m..];
  }

  /** The update of one iterator and its offset at the end of the loop body. */
  method NextPlace(frags: seq<Buffer>, i: nat, off: nat, copied: nat, ghost t: seq<nat>, ghost total: nat)
    returns (i': nat, off': nat)
    requires At(t, total, frags, i, off) && i < |frags|
    requires copied <= Plus(frags[i], off).size && total + copied <= |t|
    ensures At(t, total + copied, frags, i', off')
    ensures i' == if copied == Plus(frags[i], off).size then i + 1 else i
  {
    RestAdvanced(t, total, frags, i, off, copied);
    if copied == Plus(frags[i], off).size {
      i', off' := i + 1, 0;
    } else {
      i', off' := i, off + copied;
    }
  }

  /** Copies from the current source buffer to the current target buffer, at most `limit` bytes. */
  method CopyPart(mem: array<Byte>, tb: Buffer, sb: Buffer, limit: nat, ghost before: seq<Byte>,
                  ghost t: seq<nat>, ghost s: seq<nat>, ghost total: nat) returns (copied: nat)
    requires |before| == mem.Length && Separate(mem.Length, t, s)
    requires total + tb.size <= |t| && Addrs(tb) == t[total..total + tb.size]
    requires total + sb.size <= |s| && Addrs(sb) == s[total..total + sb.size]
    requires Copied(before, mem[..], t, s, total)
    modifies mem
    ensures copied == Min(Min(tb.size, sb.size), limit)
    ensures Copied(before, mem[..], t, s, total + copied)
  {
    ghost var mid := mem[..];
    var b := Limit(tb, limit);
    assert Addrs(b) == t[total..total + tb.size][..b.size];
    assert Addrs(b) == t[total..total + b.size];
    copied := CopyOne(mem, b, sb);
    assert Addrs(b)[..copied] == t[total..total + copied];
    forall j | total <= j < total + copied
      ensures mem[t[j]] == mid[s[j]]
    {
      assert Addrs(b)[j - total] == t[j] && Addrs(sb)[j - total] == s[j];
    }
    CopiedStep(before, mid, mem[..], t, s, total, copied);
  }

  /** Where a copy stands: the iterators, the offsets, and what has been copied. */
  datatype Place = Place(ti: nat, toff: nat, si: nat, soff: nat, total: nat)

  ghost predicate Midway(before: seq<Byte>, now: seq<Byte>, target: seq<Buffer>, source: seq<Buffer>, p: Place)
    requires Separate(|before|, AddrList(target), AddrList(source))
  {
    && At(AddrList(target), p.total, target, p.ti, p.toff)
    && At(AddrList(source), p.total, source, p.si, p.soff)
    && Copied(before, now, AddrList(target), AddrList(source), p.total)
  }

  lemma MidwayStart(before: seq<Byte>, target: seq<Buffer>, source: seq<Buffer>)
    requires Separate(|before|, AddrList(target), AddrList(source))
    ensures Midway(before, before, target, source, Place(0, 0, 0, 0, 0))
  {
    RestStart(target, 0);
    RestStart(source, 0);
    assert target[0..] == target && source[0..] == source;
  }

  /** The loop body: lines 1709-1732, and with a limit 2203-2227. */
  method CopyTurn(mem: array<Byte>, target: seq<Buffer>, source: seq<Buffer>, p: Place, limit: nat,
                  ghost before: seq<Byte>) returns (q: Place)
    requires |before| == mem.Length && Separate(|before|, AddrList(target), AddrList(source))
    requires Midway(before, mem[..], target, source, p) && p.ti < |target| && p.si < |source|
    modifies mem
    ensures Midway(before, mem[..], target, source, q)
    ensures p.ti <= q.ti && p.si <= q.si && p.total <= q.total <= p.total + limit
    ensures p.ti < q.ti || p.si < q.si
            || (q.total == p.total + limit && limit < Plus(target[p.ti], p.toff).size)
  {
    ghost var t := AddrList(target);
    ghost var s := AddrList(source);
    var tb := Plus(target[p.ti], p.toff);
    var sb := Plus(source[p.si], p.soff);
    SliceOf(t, p.total, target, p.ti, p.toff, tb);
    SliceOf(s, p.total, source, p.si, p.soff, sb);
    var copied := CopyPart(mem, tb, sb, limit, before, t, s, p.total);
    q := NextPlaces(target, source, p, copied, t, s);
  }

  /** The updates of both iterators. */
  method NextPlaces(target: seq<Buffer>, source: seq<Buffer>, p: Place, copied: nat,
                    ghost t: seq<nat>, ghost s: seq<nat>) returns (q: Place)
    requires At(t, p.total, target, p.ti, p.toff) && p.ti < |target| && p.total + copied <= |t|
    requires At(s, p.total, source, p.si, p.soff) && p.si < |source| && p.total + copied <= |s|
    requires copied <= Plus(target[p.ti], p.toff).size && copied <= Plus(source[p.si], p.soff).size
    ensures At(t, q.total, target, q.ti, q.toff) && At(s, q.total, source, q.si, q.soff)
    ensures q.total == p.total + copied
    ensures q.ti == if copied == Plus(target[p.ti], p.toff).size then p.ti + 1 else p.ti
    ensures q.si == if copied == Plus(source[p.si], p.soff).size then p.si + 1 else p.si
  {
    var ti, toff := NextPlace(target, p.ti, p.toff, copied, t, p.total);
    var si, soff := NextPlace(source, p.si, p.soff, copied, s, p.total);
    q := Place(ti, toff, si, soff, p.total + copied);
  }

  /** At the end of one of the sequences all of it has been copied. */
  lemma MidwayEnd(before: seq<Byte>, now: seq<Byte>, target: seq<Buffer>, source: seq<Buffer>, p: Place)
    requires Separate(|before|, AddrList(target), AddrList(source)) && Midway(before, now, target, source, p)
    ensures p.total <= Min(|AddrList(target)|, |AddrList(source)|)
    ensures p.ti == |target| ==> p.total == |AddrList(target)|
    ensures p.si == |source| ==> p.total == |AddrList(source)|
  {
  }

  /** `buffer_copy(target, source, max_bytes_to_copy)` on sequences. */
  method CopyLimited(mem: array<Byte>, target: seq<Buffer>, source: seq<Buffer>, max: nat) returns (total: nat)
    requires Separate(mem.Length, AddrList(target), AddrList(source))
    modifies mem
    ensures total == Min(Min(|AddrList(target)|, |AddrList(source)|), max)
    ensures Copied(old(mem[..]), mem[..], AddrList(target), AddrList(source), total)
  {
    ghost var before := mem[..];
    MidwayStart(before, target, source);
    var p := Place(0, 0, 0, 0, 0);
    while p.total != max && p.ti != |target| && p.si != |source|
      invariant p.ti <= |target| && p.si <= |source| && p.total <= max
      invariant Midway(before, mem[..], target, source, p)
      decreases |target| - p.ti + |source| - p.si, max - p.total
    {
      p := CopyTurn(mem, target, source, p, max - p.total, before);
    }
    MidwayEnd(before, mem[..], target, source, p);
    total := p.total;
  }

  /** `buffer_copy(target, source)` on sequences: every turn is limited by its own buffers alone. */
  method Copy(mem: array<Byte>, target: seq<Buffer>, source: seq<Buffer>) returns (total: nat)
    requires Separate(mem.Length, AddrList(target), AddrList(source))
    modifies mem
    ensures total == Min(|AddrList(target)|, |AddrList(source)|)
    ensures Copied(old(mem[..]), mem[..], AddrList(target), AddrList(source), total)
  {
    ghost var before := mem[..];
    MidwayStart(before, target, source);
    var p := Place(0, 0, 0, 0, 0);
    while p.ti != |target| && p.si != |source|
      invariant p.ti <= |target| && p.si <= |source|
      invariant Midway(before, mem[..], target, source, p)
      decreases |target| - p.ti + |source| - p.si
    {
      p := CopyTurn(mem, target, source, p, Plus(target[p.ti], p.toff).size, before);
    }
    MidwayEnd(before, mem[..], target, source, p);
    total := p.total;
  }
}
