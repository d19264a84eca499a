/** The chunk pool of src/iobufs.cpp and src/iobufs.hpp: one arena cut into equal chunks, a bitset of
    the free ones, and plain heap blocks once the arena is used up. */
module IoBufs {
  import opened Basics
  import opened Bits
  import opened Bitset

  /** `sizeof(iobuf)`: three 32-bit cursors before the data. */
  const HEADER_SIZE: nat := 12

  /** A `shared_ptr<iobuf>` as the pool hands it out: where it points, and whether its deleter is the
      pool's `release` or the heap's `free`. */
  datatype Chunk = Chunk(addr: int, pooled: bool)

  function Stride(size: nat): nat {
    size + HEADER_SIZE
  }

  /** Address of chunk `i` of an arena at `base`. */
  function ChunkAddr(base: int, size: nat, i: nat): int {
    base + i * Stride(size)
  }

  /** `(char*)io - chunk_) / (size_ + sizeof(iobuf))` */
  function IndexOf(base: int, size: nat, addr: int): int
    requires base <= addr
  {
    (addr - base) / Stride(size)
  }

  /** `inrange` */
  predicate InRange(base: int, size: nat, count: nat, addr: int) {
    base <= addr < base + Stride(size) * count
  }

  /** Chunks are whole, inside the arena, and apart from each other; the division in `release` gives
      back the index that `acquire` used. */
  lemma ChunkLayout(base: int, size: nat, count: nat, i: nat, j: nat)
    requires i < count && j < count
    ensures base <= ChunkAddr(base, size, i)
    ensures ChunkAddr(base, size, i) + Stride(size) <= base + Stride(size) * count
    ensures InRange(base, size, count, ChunkAddr(base, size, i))
    ensures IndexOf(base, size, ChunkAddr(base, size, i)) == i
    ensures i < j ==> ChunkAddr(base, size, i) + Stride(size) <= ChunkAddr(base, size, j)
  {
    Multiple(i, count, Stride(size));
    if i < j {
      Multiple(i, j, Stride(size));
    }
    Divided(i, Stride(size), 0);
  }

  /** Free bits and live chunks add up. */
  lemma Conservation(free: seq<bool>, live: set<nat>)
    requires forall i: nat | i in live :: i < |free|
    requires forall i: nat | i < |free| :: free[i] == (i !in live)
    ensures Ones(free) + |live| == |free|
  {
    OnesIsCardinality(free);
    var all := Indexes(|free|);
    assert Positions(free) == all - live;
    assert live <= all;
  }

  function Indexes(n: nat): (r: set<nat>)
    ensures |r| == n && forall i: nat :: i in r <==> i < n
  {
    if n == 0 then {} else Indexes(n - 1) + {n - 1}
  }

  class Pool {
    const base: int
    const size: nat
    const count: nat
    const bitmap: BitVector
    /** Indexes of the arena chunks that are out. */
    ghost var live: set<nat>

    /** Used-up bits are exactly the live chunks. The bits past the count, if the last block has any,
        are all one: the constructor fills whole blocks. */
    ghost predicate Valid()
      reads this, bitmap
    {
      && bitmap.Sized() && bitmap.nums == count
      && (forall i: nat | i in live :: i < count)
      && (forall i: nat | i < 64 * BlocksFor(count) :: bitmap.Raw()[i] == (i !in live))
    }

    /** Number of free bits. */
    ghost function Free(): nat
      requires bitmap.Sized()
      reads this, bitmap
    {
      Ones(bitmap.Contents())
    }

    constructor (base: int, size: nat, count: nat)
      ensures Valid() && fresh(bitmap)
      ensures this.base == base && this.size == size && this.count == count
      ensures live == {} && Free() == count
    {
      this.base := base;
      this.size := size;
      this.count := count;
      bitmap := new BitVector(count, true);
      live := {};
      new;
      FreeCount();
    }

    /** Free bits plus live chunks is the chunk count. */
    lemma FreeCount()
      requires Valid()
      ensures Free() + |live| == count
    {
      forall i: nat | i < count
        ensures bitmap.Contents()[i] == (i !in live)
      {
        assert bitmap.Raw()[i] == (i !in live);
      }
      Conservation(bitmap.Contents(), live);
    }

    /** `heap` is the address `malloc` would return; `i` is the index of the chunk taken. `None` is the
        failed assertion of `bitset::set` on a bit past the count. */
    method Acquire(heap: int) returns (r: Option<Chunk>, ghost i: nat)
      requires Valid()
      modifies this`live, bitmap`bits
      ensures Valid()
      ensures old(Free()) > 0 ==>
                && i < count && i !in old(live) && live == old(live) + {i}
                && (forall j: nat | j < i :: j in old(live))
                && r == Some(Chunk(ChunkAddr(base, size, i), true))
      ensures old(Free()) == 0 ==> live == old(live)
      ensures old(Free()) == 0 && count % 64 == 0 ==> r == Some(Chunk(heap, false))
      ensures old(Free()) == 0 && count % 64 != 0 ==> r == None
    {
      ExhaustedExactly();
      assert count % 64 != 0 ==> count < |bitmap.Raw()| && bitmap.Raw()[count];
      var p := bitmap.FindFirst();
      assert forall j: nat | j < count :: bitmap.Raw()[j] == (j !in live);
      if p == None {
        r, i := Some(Chunk(heap, false)), 0;
      } else {
        var k := p.value;
        i := k;
        if k >= count {
          return None, i;
        }
        bitmap.Set(k, false);
        live := live + {k};
        r := Some(Chunk(base + k * (size + HEADER_SIZE), true));
      }
    }

    /** No bit is free exactly when every chunk is out. */
    lemma ExhaustedExactly()
      requires Valid()
      ensures Free() == 0 <==> forall i: nat | i < count :: i in live
    {
      FreeCount();
      var all := Indexes(count);
      assert live <= all;
      if Free() == 0 {
        SubsetSameSize(live, all);
      }
      assert (forall i: nat | i < count :: i in live) <==> live == all;
    }

    lemma SubsetSameSize(a: set<nat>, b: set<nat>)
      requires a <= b && |a| == |b|
      ensures a == b
    {
      assert b == a + (b - a);
      assert |b| == |a| + |b - a|;
    }

    /** The deleter of an arena chunk. */
    method Release(addr: int, ghost i: nat)
      requires Valid() && i in live && addr == ChunkAddr(base, size, i)
      modifies this`live, bitmap`bits
      ensures Valid() && live == old(live) - {i}
      ensures Free() == old(Free()) + 1
    {
      ChunkLayout(base, size, count, i, i);
      FreeCount();
      assert InRange(base, size, count, addr);
      var k := (addr - base) / (size + HEADER_SIZE);
      bitmap.Set(k, true);
      live := live - {i};
      FreeCount();
    }
  }

  /** Two live chunks never overlap, whichever order they were acquired and released in. */
  lemma LiveChunksDisjoint(pool: Pool, i: nat, j: nat)
    requires pool.Valid() && i in pool.live && j in pool.live && i != j
    ensures var a := ChunkAddr(pool.base, pool.size, i);
            var b := ChunkAddr(pool.base, pool.size, j);
            && (a + Stride(pool.size) <= b || b + Stride(pool.size) <= a)
            && pool.base <= a && a + Stride(pool.size) <= pool.base + Stride(pool.size) * pool.count
  {
    ChunkLayout(pool.base, pool.size, pool.count, i, j);
    ChunkLayout(pool.base, pool.size, pool.count, j, i);
  }
}
