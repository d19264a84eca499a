/** The two shifts of src/bitset.cpp on the blocks: what each block holds afterwards, and for which
    shapes the right shift is a shift at all. */
module BlockShifts {
  import opened Basics
  import opened Words
  import opened Bits

  /** The result of moving `div` whole blocks and `r` bits up, block `j`. */
  function LeftBlock(b: seq<Word>, div: nat, r: nat, j: nat): Word
    requires div <= j < |b| && r < 64
  {
    if r == 0 then b[j - div]
    else if j == div then Shl(b[0], r)
    else WordOr(Shl(b[j - div], r), Shr(b[j - div - 1], 64 - r))
  }

  lemma LeftBlockBit(b: seq<Word>, div: nat, r: nat, j: nat, t: nat)
    requires div <= j < |b| && r < 64 && t < 64
    ensures var k := 64 * j + t; var n := 64 * div + r;
            Bit(LeftBlock(b, div, r, j), t) == (k >= n && BitAt(b, k - n))
  {
    if r > 0 {
      var hi := Shl(b[j - div], r);
      BitShl(b[j - div], r, t);
      if j > div {
        var lo := Shr(b[j - div - 1], 64 - r);
        BitOr(hi, lo, t);
        BitShr(b[j - div - 1], 64 - r, t);
        if t >= r {
          BitOutside(b[j - div - 1], t + 64 - r);
          BitAtSplit(b, j - div, t - r);
        } else {
          BitAtSplit(b, j - div - 1, t + 64 - r);
        }
      } else if t >= r {
        BitAtSplit(b, 0, t - r);
      }
    } else {
      BitAtSplit(b, j - div, t);
    }
  }

  /** All blocks after the move up, before the unused bits are zeroed. */
  function LeftMoved(b: seq<Word>, n: nat): (m: seq<Word>)
    ensures |m| == |b|
  {
    seq(|b|, j requires 0 <= j < |b| => if j < n / 64 then 0 else LeftBlock(b, n / 64, n % 64, j))
  }

  lemma LeftMovedBits(b: seq<Word>, n: nat, size: nat)
    requires Fits(b, size)
    ensures View(LeftMoved(b, n), size) == ShiftedLeft(View(b, size), n)
  {
    forall k | 0 <= k < size
      ensures BitAt(LeftMoved(b, n), k) == (k >= n && BitAt(b, k - n))
    {
      if k / 64 < n / 64 {
        BitConst(k % 64);
      } else {
        LeftBlockBit(b, n / 64, n % 64, k / 64, k % 64);
      }
    }
  }

  // ------------------------------------------------------------- right shift

  /** Block `j` of a right shift by `div` blocks and `r` bits. */
  function RightBlock(b: seq<Word>, div: nat, r: nat, j: nat): Word
    requires j + div < |b| && r < 64
  {
    if r == 0 then b[j + div]
    else if j + div + 1 == |b| then Shr(b[j + div], r)
    else WordOr(Shr(b[j + div], r), Shl(b[j + div + 1], 64 - r))
  }

  function RightMoved(b: seq<Word>, n: nat): (m: seq<Word>)
    ensures |m| == |b|
  {
    seq(|b|, j requires 0 <= j < |b| => if j + n / 64 < |b| then RightBlock(b, n / 64, n % 64, j) else 0)
  }

  lemma RightBlockBit(b: seq<Word>, div: nat, r: nat, j: nat, t: nat)
    requires j + div < |b| && r < 64 && t < 64
    ensures var k := 64 * (j + div) + t + r;
            Bit(RightBlock(b, div, r, j), t) == (k < 64 * |b| && BitAt(b, k))
  {
    if r > 0 {
      var w := b[j + div];
      BitShr(w, r, t);
      if t + r < 64 {
        BitAtSplit(b, j + div, t + r);
      } else {
        BitOutside(w, t + r);
      }
      if j + div + 1 < |b| {
        var v := b[j + div + 1];
        BitShl(v, 64 - r, t);
        BitOr(Shr(w, r), Shl(v, 64 - r), t);
        if t + r >= 64 {
          BitAtSplit(b, j + div + 1, t + r - 64);
        }
      }
    } else {
      BitAtSplit(b, j + div, t);
    }
  }

  lemma RightMovedBits(b: seq<Word>, n: nat, size: nat)
    requires Fits(b, size) && Trimmed(b, size)
    ensures Trimmed(RightMoved(b, n), size)
    ensures View(RightMoved(b, n), size) == ShiftedRight(View(b, size), n)
  {
    forall k | 0 <= k < 64 * |b|
      ensures BitAt(RightMoved(b, n), k) == (k + n < size && BitAt(b, k + n))
    {
      if k / 64 + n / 64 < |b| {
        RightBlockBit(b, n / 64, n % 64, k / 64, k % 64);
      } else {
        BitConst(k % 64);
      }
    }
  }

  /** The loop of src/bitset.cpp:190-191 from `i` down to 1. `None` means that it reads or writes a
      block outside the vector. */
  function RightLoop(b: seq<Word>, i: nat, div: nat, r: nat): (c: Option<seq<Word>>)
    requires 0 < r < 64
    ensures c.Some? ==> |c.value| == |b|
    decreases i
  {
    if i == 0 then Some(b)
    else if i + 1 >= |b| || i < div then None
    else RightLoop(b[i - div := WordOr(Shr(b[i], r), Shl(b[i + 1], 64 - r))], i - 1, div, r)
  }

  function ClearTop(b: seq<Word>, div: nat): seq<Word>
    requires div <= |b|
  {
    b[..|b| - div] + seq(div, _ => 0)
  }

  /** operator>>= as written, on the blocks of a bitset of `size` bits. */
  function RightResult(b: seq<Word>, size: nat, n: nat): Option<seq<Word>>
    requires Fits(b, size)
  {
    if n >= size then Some(seq(|b|, _ => 0))
    else if n == 0 then Some(b)
    else
      var last := |b| - 1;
      var div := n / 64;
      if n % 64 == 0 then Some(ClearTop(b[div..] + b[|b| - div..], div))
      else
        match RightLoop(b, last - div, div, n % 64)
        case None => None
        case Some(c) => Some(ClearTop(c[last - div := Shr(c[last], n % 64)], div))
  }

  /** The shapes for which operator>>= is right: a whole-block shift, a shift that leaves only the
      last block, or a shift by one block and some bits of a three-block bitset. */
  predicate RightShiftSound(size: nat, n: nat) {
    n >= size || n % 64 == 0 ||
    var last := BlocksFor(size) - 1;
    last == n / 64 || (n / 64 == 1 && last == 2)
  }

  ghost predicate RightShiftWorks(b: seq<Word>, size: nat, n: nat)
    requires Fits(b, size)
  {
    var c := RightResult(b, size, n);
    && c.Some?
    && Fits(c.value, size)
    && Trimmed(c.value, size)
    && View(c.value, size) == ShiftedRight(View(b, size), n)
  }

  lemma RightShiftRight(b: seq<Word>, size: nat, n: nat)
    requires Fits(b, size) && Trimmed(b, size) && RightShiftSound(size, n)
    ensures RightShiftWorks(b, size, n)
  {
    if n >= size {
      ZeroBlocks(seq(|b|, _ => 0));
    } else if n > 0 {
      var last := |b| - 1;
      var div := n / 64;
      if n % 64 != 0 && last != div {
        assert RightLoop(b, 1, 1, n % 64) == RightLoop(b[0 := RightBlock(b, 1, n % 64, 0)], 0, 1, n % 64);
      }
      assert RightResult(b, size, n).value == RightMoved(b, n);
      RightMovedBits(b, n, size);
    }
  }

  lemma ZeroBlocks(b: seq<Word>)
    requires forall j | 0 <= j < |b| :: b[j] == 0
    ensures forall k | 0 <= k < 64 * |b| :: !BitAt(b, k)
  {
    forall k | 0 <= k < 64 * |b|
      ensures !BitAt(b, k)
    {
      BitConst(k % 64);
    }
  }

  /** In every other shape some bitset is shifted wrongly, or memory outside the vector is touched. */
  lemma RightShiftCounterexample(size: nat, n: nat) returns (b: seq<Word>)
    requires !RightShiftSound(size, n)
    ensures Fits(b, size) && Trimmed(b, size) && !RightShiftWorks(b, size, n)
  {
    var blocks := BlocksFor(size);
    b := seq(blocks, _ => 0);
    if n / 64 == 1 {
      b := OneBlockShiftLoses(size, n);
    } else {
      ZeroBlocks(b);
      if n / 64 > 1 {
        LoopUnderflows(b, blocks - 1 - n / 64, n / 64, n % 64);
      }
    }
  }

  lemma LoneBlock(size: nat, i: nat, w: Word) returns (b: seq<Word>)
    requires i + 1 < BlocksFor(size)
    ensures b == seq(BlocksFor(size), _ => 0)[i := w] && Fits(b, size) && Trimmed(b, size)
  {
    b := seq(BlocksFor(size), _ => 0)[i := w];
    forall k | size <= k < 64 * |b|
      ensures !BitAt(b, k)
    {
      BitConst(k % 64);
    }
  }

  lemma OneBlockShiftLoses(size: nat, n: nat) returns (b: seq<Word>)
    requires !RightShiftSound(size, n) && n / 64 == 1
    ensures Fits(b, size) && Trimmed(b, size) && !RightShiftWorks(b, size, n)
  {
    var last := BlocksFor(size) - 1;
    var r := n % 64;
    b := LoneBlock(size, last - 2, Mask(63));
    var k := 64 * (last - 3) + 63 - r;
    LoneBitShifts(b, size, last - 2, r);
    OneBlockLoopLoses(b, last, r);
    var c := RightResult(b, size, n);
    if c.Some? {
      if |c.value| == |b| {
        ZeroBlockView(c.value, size, last - 3, 63 - r);
      }
    }
  }

  lemma ZeroBlockView(b: seq<Word>, size: nat, i: nat, t: nat)
    requires Fits(b, size) && i < |b| && b[i] == 0 && t < 64 && 64 * i + t < size
    ensures !View(b, size)[64 * i + t]
  {
    BitConst(t);
    BitAtSplit(b, i, t);
  }

  /** The top bit of block `i` belongs into the block before it. */
  lemma LoneBitShifts(b: seq<Word>, size: nat, i: nat, r: nat)
    requires Fits(b, size) && 0 < i && i + 1 < |b| && b[i] == Mask(63) && 0 < r < 64
    ensures 64 * (i - 1) + 63 - r < size && ShiftedRight(View(b, size), 64 + r)[64 * (i - 1) + 63 - r]
  {
    BitMask(63, 63);
    BitAtSplit(b, i, 63);
  }

  lemma {:induction false} LoopUnderflows(b: seq<Word>, i: nat, div: nat, r: nat)
    requires 0 < r < 64 && 1 <= i && 1 < div
    ensures RightLoop(b, i, div, r) == None
    decreases i
  {
    if i > 1 && i + 1 < |b| && i >= div {
      LoopUnderflows(b[i - div := WordOr(Shr(b[i], r), Shl(b[i + 1], 64 - r))], i - 1, div, r);
    }
  }

  /** One block and `r` bits down: block `last - 2` is overwritten before it is used. */
  lemma OneBlockLoopLoses(b: seq<Word>, last: nat, r: nat)
    requires 0 < r < 64 && last == |b| - 1 && last >= 3
    requires b[last - 1] == 0 && b[last] == 0
    ensures RightLoop(b, last - 1, 1, r).Some? ==> RightLoop(b, last - 1, 1, r).value[last - 3] == 0
  {
    ShiftZero(r);
    ShiftZero(64 - r);
    var c := b[last - 2 := 0];
    assert RightLoop(b, last - 1, 1, r) == RightLoop(c, last - 2, 1, r);
    var d := c[last - 3 := 0];
    assert RightLoop(c, last - 2, 1, r) == RightLoop(d, last - 3, 1, r);
    LoopFrame(d, last - 3, r);
  }

  lemma {:induction false} ShiftZero(r: nat)
    ensures Shl(0, r) == 0 && Shr(0, r) == 0
  {
    if r > 0 {
      ShiftZero(r - 1);
    }
  }

  lemma {:induction false} LoopFrame(b: seq<Word>, i: nat, r: nat)
    requires 0 < r < 64
    ensures var c := RightLoop(b, i, 1, r);
            c.Some? ==> forall j | i <= j < |b| :: c.value[j] == b[j]
    decreases i
  {
    if i > 0 && i + 1 < |b| {
      LoopFrame(b[i - 1 := WordOr(Shr(b[i], r), Shl(b[i + 1], 64 - r))], i - 1, r);
    }
  }

  /** operator>>= refines the shift of the bit sequence for all contents exactly in the sound shapes. */
  lemma RightShiftExactly(size: nat, n: nat)
    ensures RightShiftSound(size, n) <==>
            forall b: seq<Word> | Fits(b, size) && Trimmed(b, size) :: RightShiftWorks(b, size, n)
  {
    if RightShiftSound(size, n) {
      forall b: seq<Word> | Fits(b, size) && Trimmed(b, size)
        ensures RightShiftWorks(b, size, n)
      {
        RightShiftRight(b, size, n);
      }
    } else {
      var b := RightShiftCounterexample(size, n);
    }
  }
}
