/** The packed bitset of src/bitset.cpp: every operation on blocks refines the same operation on the
    plain bit sequence, and leaves the unused bits of the last block zero. */
module Bitset {
  import opened Basics
  import opened Words
  import opened Bits
  import opened BlockShifts
  import PopCount

  datatype BitOp = AndOp | OrOp | XorOp | MinusOp

  function OpWord(op: BitOp, x: Word, y: Word): Word {
    match op
    case AndOp => And(x, y)
    case OrOp => WordOr(x, y)
    case XorOp => WordXor(x, y)
    case MinusOp => And(x, Not(y))
  }

  predicate OpBit(op: BitOp, x: bool, y: bool) {
    match op
    case AndOp => x && y
    case OrOp => x || y
    case XorOp => x != y
    case MinusOp => x && !y
  }

  lemma OpWordBit(op: BitOp, x: Word, y: Word, t: nat)
    requires t < 64
    ensures Bit(OpWord(op, x, y), t) == OpBit(op, Bit(x, t), Bit(y, t))
  {
    BitAnd(x, y, t);
    BitOr(x, y, t);
    BitXor(x, y, t);
    BitAnd(x, Not(y), t);
    BitNot(y, t);
  }

  /** `x op= y`: only the blocks both operands have are combined. */
  function Combined(op: BitOp, x: seq<bool>, y: seq<bool>): (r: seq<bool>)
    ensures |r| == |x|
  {
    seq(|x|, k requires 0 <= k < |x| =>
      if k < 64 * BlocksFor(|y|) then OpBit(op, x[k], k < |y| && y[k]) else x[k])
  }

  /** On bitsets of one size the operators are those of the sets of one positions. */
  lemma CombinedPositions(x: seq<bool>, y: seq<bool>)
    requires |x| == |y|
    ensures Positions(Combined(AndOp, x, y)) == Positions(x) * Positions(y)
    ensures Positions(Combined(OrOp, x, y)) == Positions(x) + Positions(y)
    ensures Positions(Combined(XorOp, x, y)) == (Positions(x) - Positions(y)) + (Positions(y) - Positions(x))
    ensures Positions(Combined(MinusOp, x, y)) == Positions(x) - Positions(y)
  {
  }

  /** The right operand has no one past the end of the left one in a block they share. */
  predicate NoSpill(n: nat, y: seq<bool>) {
    forall k | n <= k < |y| && k < 64 * BlocksFor(n) :: !y[k]
  }

  /** What `zero_unused_bits` leaves in the blocks. */
  function ZeroUnused(b: seq<Word>, n: nat): (z: seq<Word>)
    requires Fits(b, n)
    ensures Fits(z, n)
  {
    if n % 64 == 0 then b
    else b[|b| - 1 := And(b[|b| - 1], Not(Shl(ALL_ONES, n % 64)))]
  }

  lemma ZeroUnusedTrims(b: seq<Word>, n: nat)
    requires Fits(b, n)
    ensures Trimmed(ZeroUnused(b, n), n)
    ensures View(ZeroUnused(b, n), n) == View(b, n)
  {
    var z := ZeroUnused(b, n);
    forall i | 0 <= i < 64 * |b|
      ensures BitAt(z, i) == (BitAt(b, i) && i < n)
    {
      if n % 64 != 0 && i / 64 == |b| - 1 {
        var t := i % 64;
        BitAnd(b[i / 64], Not(Shl(ALL_ONES, n % 64)), t);
        BitNot(Shl(ALL_ONES, n % 64), t);
        BitShl(ALL_ONES, n % 64, t);
        BitConst(t);
        if t >= n % 64 {
          BitConst(t - n % 64);
        }
      }
    }
  }

  /** The blocks after operator<<=. */
  function LeftResult(b: seq<Word>, size: nat, n: nat): (r: seq<Word>)
    requires Fits(b, size)
    ensures Fits(r, size)
  {
    if n >= size then seq(|b|, _ => 0)
    else if n == 0 then b
    else ZeroUnused(LeftMoved(b, n), size)
  }

  /** operator<<= is the shift of the bit sequence, for every size and amount. */
  lemma LeftShiftRight(b: seq<Word>, size: nat, n: nat)
    requires Fits(b, size) && Trimmed(b, size)
    ensures Trimmed(LeftResult(b, size, n), size)
    ensures View(LeftResult(b, size, n), size) == ShiftedLeft(View(b, size), n)
  {
    if n >= size {
      ZeroBlocks(LeftResult(b, size, n));
    } else if n > 0 {
      ZeroUnusedTrims(LeftMoved(b, n), size);
      LeftMovedBits(b, n, size);
    }
  }

  /** Whole blocks up and down again, `(b << n) >> n`: the top `n` bits are cleared, the others stay. */
  lemma ThereAndBack(b: seq<Word>, size: nat, n: nat)
    requires Fits(b, size) && Trimmed(b, size) && n % 64 == 0
    ensures var c := RightResult(LeftResult(b, size, n), size, n);
            && c.Some? && Fits(c.value, size) && Trimmed(c.value, size)
            && forall k | 0 <= k < size :: BitAt(c.value, k) == (k + n < size && BitAt(b, k))
  {
    LeftShiftRight(b, size, n);
    RightShiftRight(LeftResult(b, size, n), size, n);
    var c := RightResult(LeftResult(b, size, n), size, n).value;
    forall k | 0 <= k < size
      ensures BitAt(c, k) == (k + n < size && BitAt(b, k))
    {
      assert BitAt(c, k) == View(c, size)[k] == ShiftedRight(ShiftedLeft(View(b, size), n), n)[k];
    }
  }

  // -------------------------------------------------- blocks and their views

  lemma CombinedBits(op: BitOp, x: seq<Word>, xn: nat, y: seq<Word>, yn: nat, z: seq<Word>)
    requires Fits(x, xn) && Trimmed(x, xn) && Fits(y, yn) && Trimmed(y, yn) && |z| == |x|
    requires forall j | 0 <= j < |x| :: z[j] == if j < |y| then OpWord(op, x[j], y[j]) else x[j]
    ensures View(z, xn) == Combined(op, View(x, xn), View(y, yn))
    ensures op.AndOp? || op.MinusOp? ==> Trimmed(z, xn)
    ensures op.OrOp? || op.XorOp? ==> (Trimmed(z, xn) <==> NoSpill(xn, View(y, yn)))
  {
    forall k | 0 <= k < 64 * |x|
      ensures BitAt(z, k) == if k < 64 * |y| then OpBit(op, BitAt(x, k), BitAt(y, k)) else BitAt(x, k)
    {
      if k < 64 * |y| {
        OpWordBit(op, x[k / 64], y[k / 64], k % 64);
      }
    }
    assert forall k | 0 <= k < yn :: View(y, yn)[k] == BitAt(y, k);
    assert forall k | yn <= k < 64 * |y| :: !BitAt(y, k);
    if Trimmed(z, xn) {
      assert forall k | xn <= k < 64 * |x| :: !BitAt(z, k);
    }
  }

  lemma ResizedBits(b: seq<Word>, size: nat, c: seq<Word>, n: nat, value: bool)
    requires Fits(b, size) && Trimmed(b, size) && Fits(c, n)
    requires forall j | 0 <= j < |c| && j < |b| ::
               c[j] == if value && n > size && size % 64 != 0 && j == |b| - 1
                       then WordOr(b[j], Shl(ALL_ONES, size % 64)) else b[j]
    requires forall j | |b| <= j < |c| :: c[j] == if value then ALL_ONES else 0
    ensures View(c, n) == Resized(View(b, size), n, value)
  {
    forall k | 0 <= k < n
      ensures BitAt(c, k) == if k < size then BitAt(b, k) else value
    {
      var t := k % 64;
      BitConst(t);
      assert BitAt(c, k) == Bit(c[k / 64], t);
      if k / 64 < |b| - 1 {
        assert k < size && c[k / 64] == b[k / 64];
      } else if k / 64 == |b| - 1 {
        assert BitAt(b, k) == Bit(b[k / 64], t) && (k < size || !BitAt(b, k));
        BitOr(b[k / 64], Shl(ALL_ONES, size % 64), t);
        BitShl(ALL_ONES, size % 64, t);
        if t >= size % 64 {
          BitConst(t - size % 64);
        }
      }
    }
  }

  lemma AppendedBits(b: seq<Word>, size: nat, w: Word, c: seq<Word>)
    requires Fits(b, size) && Trimmed(b, size)
    requires |c| == |b| + 1 && forall j | 0 <= j < |b| - 1 :: c[j] == b[j]
    requires size % 64 == 0 ==> c == b + [w]
    requires size % 64 != 0 ==> c[|b|] == Shr(w, 64 - size % 64)
                                && c[|b| - 1] == WordOr(b[|b| - 1], Shl(w, size % 64))
    ensures Fits(c, size + 64) && Trimmed(c, size + 64)
    ensures View(c, size + 64) == View(b, size) + seq(64, t requires 0 <= t < 64 => Bit(w, t))
  {
    forall k | 0 <= k < 64 * |c|
      ensures BitAt(c, k) ==
              if k < size then BitAt(b, k) else k < size + 64 && Bit(w, k - size)
    {
      var e := size % 64;
      var t := k % 64;
      assert e != 0 ==> size == 64 * (|b| - 1) + e;
      assert BitAt(c, k) == Bit(c[k / 64], t);
      if e != 0 && k / 64 == |b| - 1 {
        assert BitAt(b, k) == Bit(b[|b| - 1], t) && (k < size || !BitAt(b, k));
        BitOr(b[|b| - 1], Shl(w, e), t);
        BitShl(w, e, t);
      } else if e != 0 && k / 64 == |b| {
        BitShr(w, 64 - e, t);
        BitOutsideIf(w, t + 64 - e);
      }
    }
  }

  lemma BitOutsideIf(w: Word, k: nat)
    ensures k >= 64 ==> !Bit(w, k)
  {
    if k >= 64 {
      BitOutside(w, k);
    }
  }

  /** A word masked down to a bit it does not have is zero. */
  lemma NoBits(w: Word, t: nat)
    requires t < 64 && !Bit(w, t)
    ensures And(w, Mask(t)) == 0
  {
    forall k | 0 <= k < 64
      ensures Bit(And(w, Mask(t)), k) == Bit(0, k)
    {
      BitAnd(w, Mask(t), k);
      BitMask(t, k);
      BitConst(k);
    }
    WordEquality(And(w, Mask(t)), 0);
  }

  lemma OnesOfBlock(b: seq<Word>, j: nat)
    requires j < |b|
    ensures Ones(View(b, 64 * (j + 1))) == Ones(View(b, 64 * j)) + PopCount.OnesIn(b[j])
  {
    var m := seq(64, k requires 0 <= k < 64 => Bit(b[j], k));
    Pow2Word();
    PopCount.OnesInIsOnes(b[j], 64);
    assert View(b, 64 * (j + 1)) == View(b, 64 * j) + m;
    OnesAppend(View(b, 64 * j), m);
  }

  lemma OnesOfTrimmed(b: seq<Word>, n: nat)
    requires Fits(b, n) && Trimmed(b, n)
    ensures Ones(View(b, 64 * |b|)) == Ones(View(b, n))
  {
    var m := View(b, 64 * |b|)[n..];
    assert View(b, 64 * |b|) == View(b, n) + m;
    OnesAppend(View(b, n), m);
    OnesZero(m);
  }

  // ------------------------------------------------------------- scan results

  lemma NextSetNone(m: seq<bool>, from: nat)
    requires forall k | from <= k < |m| :: !m[k]
    ensures NextSet(m, from) == None
  {
  }

  lemma NextSetSome(m: seq<bool>, from: nat, p: nat)
    requires from <= p < |m| && m[p] && forall k | from <= k < p :: !m[k]
    ensures NextSet(m, from) == Some(p)
  {
  }

  lemma {:induction false} NextSetSkip(m: seq<bool>, from: nat, start: nat)
    requires from <= start <= |m| && forall k | from <= k < start :: !m[k]
    ensures NextSet(m, from) == NextSet(m, start)
    decreases start - from
  {
    if from < start {
      NextSetSkip(m, from + 1, start);
    }
  }

  lemma MaskedBit(w: Word, low: nat, t: nat)
    requires low < 64 && t < 64
    ensures Bit(And(w, Shl(ALL_ONES, low)), t) == (t >= low && Bit(w, t))
  {
    BitAnd(w, Shl(ALL_ONES, low), t);
    BitShl(ALL_ONES, low, t);
    if t >= low {
      BitConst(t - low);
    }
  }

  /** The block of `n`, cut off below `n`, has its lowest one at `low`. */
  lemma FoundInBlock(b: seq<Word>, n: nat, low: nat)
    requires n < 64 * |b| && low < 64
    requires var w := And(b[n / 64], Shl(ALL_ONES, n % 64));
             Bit(w, low) && forall j | 0 <= j < low :: !Bit(w, j)
    ensures NextSet(View(b, 64 * |b|), n) == Some(n / 64 * 64 + low)
  {
    var start := n / 64 * 64;
    MaskedBit(b[n / 64], n % 64, low);
    BitAtSplit(b, n / 64, low);
    forall k | n <= k < start + low
      ensures !BitAt(b, k)
    {
      MaskedBit(b[n / 64], n % 64, k - start);
      BitAtSplit(b, n / 64, k - start);
    }
    NextSetSome(View(b, 64 * |b|), n, start + low);
  }

  lemma NothingInBlock(b: seq<Word>, n: nat)
    requires n < 64 * |b| && And(b[n / 64], Shl(ALL_ONES, n % 64)) == 0
    ensures NextSet(View(b, 64 * |b|), n) == NextSet(View(b, 64 * |b|), 64 * (n / 64 + 1))
  {
    forall k | n <= k < 64 * (n / 64 + 1)
      ensures !BitAt(b, k)
    {
      MaskedBit(b[n / 64], n % 64, k % 64);
      BitConst(k % 64);
    }
    NextSetSkip(View(b, 64 * |b|), n, 64 * (n / 64 + 1));
  }

  /** On a trimmed bitset the scan over whole blocks is the scan over the bits. */
  lemma NextSetTrimmed(b: seq<Word>, n: nat, from: nat)
    requires Fits(b, n) && Trimmed(b, n)
    ensures NextSet(View(b, 64 * |b|), from) == NextSet(View(b, n), from)
  {
    var raw := View(b, 64 * |b|);
    match NextSet(raw, from)
    case None =>
      forall k | from <= k < n
        ensures !View(b, n)[k]
      {
        assert !raw[k];
      }
    case Some(p) =>
      forall k | from <= k < p && k < n
        ensures !View(b, n)[k]
      {
        assert !raw[k];
      }
      NextSetSome(View(b, n), from, p);
  }

  // ---------------------------------------------------------------- ordering

  /** operator<: the first differing block decides, then the size. */
  predicate LessThan(xb: seq<Word>, xn: nat, yb: seq<Word>, yn: nat) {
    if xb == [] || yb == [] then xn < yn
    else if xb[0] != yb[0] then xb[0] < yb[0]
    else LessThan(xb[1..], xn, yb[1..], yn)
  }

  /** On bitsets whose block count is fixed by their size, `<` is a strict total order whose
      equality is operator==. */
  lemma {:induction false} LessTotal(xb: seq<Word>, xn: nat, yb: seq<Word>, yn: nat)
    requires xn == yn ==> |xb| == |yb|
    ensures !(LessThan(xb, xn, yb, yn) && LessThan(yb, yn, xb, xn))
    ensures (!LessThan(xb, xn, yb, yn) && !LessThan(yb, yn, xb, xn)) <==> (xb == yb && xn == yn)
  {
    if xb != [] && yb != [] && xb[0] == yb[0] {
      LessTotal(xb[1..], xn, yb[1..], yn);
      assert xb == [xb[0]] + xb[1..] && yb == [yb[0]] + yb[1..];
    }
  }

  lemma {:induction false} LessTransitive(xb: seq<Word>, xn: nat, yb: seq<Word>, yn: nat, zb: seq<Word>, zn: nat)
    requires (xn <= yn ==> |xb| <= |yb|) && (yn <= xn ==> |yb| <= |xb|)
    requires (yn <= zn ==> |yb| <= |zb|) && (zn <= yn ==> |zb| <= |yb|)
    requires (xn <= zn ==> |xb| <= |zb|) && (zn <= xn ==> |zb| <= |xb|)
    requires LessThan(xb, xn, yb, yn) && LessThan(yb, yn, zb, zn)
    ensures LessThan(xb, xn, zb, zn)
  {
    if xb != [] && yb != [] && zb != [] && xb[0] == yb[0] == zb[0] {
      LessTransitive(xb[1..], xn, yb[1..], yn, zb[1..], zn);
    }
  }

  /** The first block in which two bitsets differ decides; the lower block is the lower bitset. */
  lemma {:induction false} LessDecided(xb: seq<Word>, xn: nat, yb: seq<Word>, yn: nat, r: nat)
    requires r <= |xb| && r <= |yb| && xb[..r] == yb[..r]
    ensures r < |xb| && r < |yb| && xb[r] != yb[r] ==> (LessThan(xb, xn, yb, yn) <==> xb[r] < yb[r])
    ensures r == |xb| || r == |yb| ==> (LessThan(xb, xn, yb, yn) <==> xn < yn)
  {
    if r > 0 {
      assert xb[0] == xb[..r][0] && yb[0] == yb[..r][0];
      assert xb[1..][..r - 1] == xb[..r][1..] && yb[1..][..r - 1] == yb[..r][1..];
      LessDecided(xb[1..], xn, yb[1..], yn, r - 1);
    }
  }

  // ------------------------------------------------------------- lowest bit

  lemma Pow2Halved(n: nat)
    ensures Pow2(n) / 2 == 0 <==> n == 0
  {
  }

  /** `lowest_bit`: src/bitset.cpp:433-440. */
  method LowestBit(b: Word) returns (log: nat)
    requires b != 0
    ensures log < 64 && Bit(b, log) && forall j | 0 <= j < log :: !Bit(b, j)
  {
    Pow2Word();
    ghost var k := LowestExists(b, 64);
    IsolateLowest(b, k);
    var x := b - And(b, b - 1);
    log := 0;
    while x / 2 != 0
      invariant log <= k && x == Pow2(k - log)
      decreases x
    {
      x := x / 2;
      log := log + 1;
    }
    Pow2Halved(k - log);
  }

  class BitVector {
    var bits: seq<Word>
    var nums: nat

    /** The block count always follows the size. */
    ghost predicate Sized()
      reads this
    {
      Fits(bits, nums)
    }

    ghost predicate Valid()
      reads this
    {
      Sized() && Trimmed(bits, nums)
    }

    ghost function Contents(): (m: seq<bool>)
      requires Sized()
      reads this
      ensures |m| == nums
    {
      View(bits, nums)
    }

    /** Every bit of every block, the unused ones included: what the scans read. */
    ghost function Raw(): (m: seq<bool>)
      reads this
    {
      View(bits, 64 * |bits|)
    }

    constructor (size: nat, value: bool)
      ensures Sized() && nums == size
      ensures Contents() == Constant(size, value)
      ensures Raw() == Constant(64 * BlocksFor(size), value)
      ensures Valid() <==> !value || size % 64 == 0
    {
      bits := seq(BlocksFor(size), _ => if value then ALL_ONES else 0);
      nums := size;
      new;
      forall i | 0 <= i < 64 * |bits|
        ensures BitAt(bits, i) == value
      {
        BitConst(i % 64);
      }
      assert value && size % 64 != 0 ==> BitAt(bits, size);
    }

    method ZeroUnusedBits()
      requires Sized()
      modifies this`bits
      ensures Valid() && bits == ZeroUnused(old(bits), nums)
      ensures Contents() == old(Contents())
    {
      ZeroUnusedTrims(bits, nums);
      var extra := nums % 64;
      if extra != 0 {
        bits := bits[|bits| - 1 := And(bits[|bits| - 1], Not(Shl(ALL_ONES, extra)))];
      }
    }

    method ResetAll()
      requires Sized()
      modifies this`bits
      ensures bits == seq(|old(bits)|, _ => 0)
      ensures Valid() && Contents() == Constant(nums, false)
    {
      bits := seq(|bits|, _ => 0);
      forall i | 0 <= i < 64 * |bits|
        ensures !BitAt(bits, i)
      {
        BitConst(i % 64);
      }
    }

    method SetAll()
      requires Sized()
      modifies this`bits
      ensures Valid() && Contents() == Constant(nums, true)
    {
      bits := seq(|bits|, _ => ALL_ONES);
      forall i | 0 <= i < 64 * |bits|
        ensures BitAt(bits, i)
      {
        BitConst(i % 64);
      }
      ZeroUnusedBits();
    }

    /** The block moves of operator<<=, src/bitset.cpp:150-169, through the pointer `b`. */
    method MoveUp(n: nat)
      requires Sized() && n < nums
      modifies this`bits
      ensures bits == LeftMoved(old(bits), n)
    {
      ghost var was := bits;
      var b: seq<Word> := bits;
      var last := |b| - 1;
      var div := n / 64;
      var r := n % 64;
      var i := last - div;
      if r != 0 {
        while i > 0
          invariant 0 <= i <= last - div && |b| == |was|
          invariant forall j | 0 <= j <= i + div :: b[j] == was[j]
          invariant forall j | i + div < j <= last :: b[j] == LeftBlock(was, div, r, j)
        {
          b := b[i + div := WordOr(Shl(b[i], r), Shr(b[i - 1], 64 - r))];
          i := i - 1;
        }
        b := b[div := Shl(b[0], r)];
      } else {
        while i > 0
          invariant 0 <= i <= last - div && |b| == |was|
          invariant forall j | 0 <= j <= i + div :: b[j] == was[j]
          invariant forall j | i + div < j <= last :: b[j] == LeftBlock(was, div, r, j)
        {
          b := b[i + div := b[i]];
          i := i - 1;
        }
        b := b[div := b[0]];
      }
      bits := seq(div, _ => 0) + b[div..];
    }

    /** operator<<= */
    method ShiftLeft(n: nat)
      requires Valid()
      modifies this`bits
      ensures Valid() && bits == LeftResult(old(bits), nums, n)
      ensures Contents() == ShiftedLeft(old(Contents()), n)
    {
      LeftShiftRight(bits, nums, n);
      if n >= nums {
        ResetAll();
      } else if n > 0 {
        MoveUp(n);
        ZeroUnusedBits();
      }
    }

    /** The block moves of operator>>=: src/bitset.cpp:180-199. `inside` is false when the written loop
        leaves the vector; the code goes on there, the model stops. */
    method MoveDown(n: nat) returns (inside: bool)
      requires Sized() && 0 < n < nums
      modifies this`bits
      ensures inside == RightResult(old(bits), nums, n).Some?
      ensures inside ==> bits == RightResult(old(bits), nums, n).value
    {
      var b: seq<Word> := bits;
      var last := |b| - 1;
      var div := n / 64;
      var r := n % 64;
      inside := true;
      if r != 0 {
        inside, b := MergeDown(b, last - div, div, r);
        if !inside {
          return;
        }
        b := b[last - div := Shr(b[last], r)];
      } else {
        b := CopyDown(b, div);
      }
      bits := b[..|b| - div] + seq(div, _ => 0);
    }

    /** The loop at line 190. False when it would leave the vector. */
    static method MergeDown(was: seq<Word>, top: nat, div: nat, r: nat) returns (inside: bool, b: seq<Word>)
      requires 0 < r < 64
      ensures inside == RightLoop(was, top, div, r).Some?
      ensures inside ==> b == RightLoop(was, top, div, r).value
    {
      b := was;
      var i := top;
      while i > 0
        invariant 0 <= i <= top
        invariant RightLoop(b, i, div, r) == RightLoop(was, top, div, r)
      {
        if i + 1 >= |b| || i < div {
          return false, b;
        }
        b := b[i - div := WordOr(Shr(b[i], r), Shl(b[i + 1], 64 - r))];
        i := i - 1;
      }
      inside := true;
    }

    /** The loop at line 196. */
    static method CopyDown(was: seq<Word>, div: nat) returns (b: seq<Word>)
      requires div < |was|
      ensures b == was[div..] + was[|was| - div..]
    {
      b := was;
      var i := div;
      while i < |b|
        invariant div <= i <= |b| == |was|
        invariant forall j | 0 <= j < i - div :: b[j] == was[j + div]
        invariant forall j | i - div <= j < |b| :: b[j] == was[j]
      {
        b := b[i - div := b[i]];
        i := i + 1;
      }
    }

    /** operator>>= */
    method ShiftRight(n: nat) returns (inside: bool)
      requires Valid()
      modifies this`bits
      ensures inside == RightResult(old(bits), nums, n).Some?
      ensures inside ==> bits == RightResult(old(bits), nums, n).value
      ensures RightShiftSound(nums, n) ==>
                inside && Valid() && Contents() == ShiftedRight(old(Contents()), n)
    {
      if RightShiftSound(nums, n) {
        RightShiftRight(bits, nums, n);
      }
      inside := true;
      if n >= nums {
        ResetAll();
      } else if n > 0 {
        inside := MoveDown(n);
      }
    }

    /** operator&=, |=, ^= and -=: one loop over the blocks both operands have. */
    method Combine(op: BitOp, rhs: BitVector)
      requires Valid() && rhs.Valid()
      modifies this`bits
      ensures Sized() && Contents() == Combined(op, old(Contents()), old(rhs.Contents()))
      ensures op.AndOp? || op.MinusOp? ==> Valid()
      ensures op.OrOp? || op.XorOp? ==> (Valid() <==> NoSpill(nums, old(rhs.Contents())))
    {
      ghost var x := bits;
      ghost var y := rhs.bits;
      ghost var yn := rhs.nums;
      var count := if |bits| < |rhs.bits| then |bits| else |rhs.bits|;
      var i := 0;
      while i < count
        invariant 0 <= i <= count && |bits| == |x| && nums == old(nums)
        invariant rhs != this ==> rhs.bits == y
        invariant forall j | 0 <= j < i :: bits[j] == OpWord(op, x[j], y[j])
        invariant forall j | i <= j < |x| :: bits[j] == x[j]
      {
        bits := bits[i := OpWord(op, bits[i], rhs.bits[i])];
        i := i + 1;
      }
      CombinedBits(op, x, nums, y, yn, bits);
    }

    method Resize(n: nat, value: bool)
      requires Valid()
      modifies this
      ensures Valid() && nums == n && Contents() == Resized(old(Contents()), n, value)
    {
      ghost var b := bits;
      ghost var size := nums;
      var blocks := |bits|;
      var required := BlocksFor(n);
      if required < blocks {
        bits := bits[..required];
      } else if required > blocks {
        bits := bits + seq(required - blocks, _ => if value then ALL_ONES else 0);
      }
      if value && n > nums && nums % 64 != 0 {
        bits := bits[blocks - 1 := WordOr(bits[blocks - 1], Shl(ALL_ONES, nums % 64))];
      }
      ResizedBits(b, size, bits, n, value);
      nums := n;
      ZeroUnusedBits();
    }

    method Clear()
      modifies this
      ensures Valid() && Contents() == []
    {
      bits := [];
      nums := 0;
    }

    method PushBack(bit: bool)
      requires Valid()
      modifies this
      ensures Valid() && Contents() == old(Contents()) + [bit]
    {
      var s := nums;
      Resize(s + 1, false);
      Set(s, bit);
    }

    method Append(w: Word)
      requires Valid()
      modifies this
      ensures Valid() && nums == old(nums) + 64
      ensures Contents() == old(Contents()) + seq(64, t requires 0 <= t < 64 => Bit(w, t))
    {
      ghost var b := bits;
      var excess := nums % 64;
      if excess != 0 {
        bits := bits + [Shr(w, 64 - excess)];
        bits := bits[|bits| - 2 := WordOr(bits[|bits| - 2], Shl(w, excess))];
      } else {
        bits := bits + [w];
      }
      AppendedBits(b, nums, w, bits);
      nums := nums + 64;
    }

    /** `set(i, bit)`, also `reset(i)` for a false `bit`. */
    method Set(i: nat, bit: bool)
      requires Sized() && i < nums
      modifies this`bits
      ensures Sized() && Raw() == old(Raw())[i := bit]
      ensures Contents() == old(Contents())[i := bit]
      ensures old(Valid()) ==> Valid()
    {
      ghost var b := bits;
      if bit {
        bits := bits[i / 64 := WordOr(bits[i / 64], Mask(i % 64))];
      } else {
        bits := bits[i / 64 := And(bits[i / 64], Not(Mask(i % 64)))];
      }
      forall k | 0 <= k < 64 * |b|
        ensures BitAt(bits, k) == if k == i then bit else BitAt(b, k)
      {
        OpWordBit(if bit then OrOp else MinusOp, b[i / 64], Mask(i % 64), k % 64);
        BitMask(i % 64, k % 64);
      }
    }

    method Flip(i: nat)
      requires Sized() && i < nums
      modifies this`bits
      ensures Sized() && Contents() == old(Contents())[i := !old(Contents())[i]]
      ensures old(Valid()) ==> Valid()
    {
      ghost var b := bits;
      bits := bits[i / 64 := WordXor(bits[i / 64], Mask(i % 64))];
      forall k | 0 <= k < 64 * |b|
        ensures BitAt(bits, k) == (BitAt(b, k) != (k == i))
      {
        OpWordBit(XorOp, b[i / 64], Mask(i % 64), k % 64);
        BitMask(i % 64, k % 64);
      }
    }

    method FlipAll()
      requires Sized()
      modifies this`bits
      ensures Valid() && Contents() == Complement(old(Contents()))
    {
      ghost var b := bits;
      var i := 0;
      while i < |bits|
        invariant 0 <= i <= |bits| == |b|
        invariant forall j | 0 <= j < i :: bits[j] == Not(b[j])
        invariant forall j | i <= j < |b| :: bits[j] == b[j]
      {
        bits := bits[i := Not(bits[i])];
        i := i + 1;
      }
      forall k | 0 <= k < 64 * |b|
        ensures BitAt(bits, k) == !BitAt(b, k)
      {
        BitNot(b[k / 64], k % 64);
      }
      ZeroUnusedBits();
    }

    /** operator[] on a constant bitset. */
    method Get(i: nat) returns (bit: bool)
      requires Sized() && i < nums
      ensures bit == Contents()[i]
    {
      ghost var t := i % 64;
      BitAnd(bits[i / 64], Mask(t), t);
      BitMask(t, t);
      if And(bits[i / 64], Mask(t)) == 0 {
        BitConst(t);
      } else if !BitAt(bits, i) {
        NoBits(bits[i / 64], t);
      }
      bit := And(bits[i / 64], Mask(i % 64)) != 0;
    }

    method Count() returns (n: nat)
      requires Sized()
      ensures n == Ones(Raw())
      ensures Valid() ==> n == Ones(Contents()) == |Positions(Contents())|
    {
      n := 0;
      var first := 0;
      var length := |bits|;
      assert View(bits, 0) == [];
      while length > 0
        invariant 0 <= length && 0 <= first && first + length == |bits|
        invariant n == Ones(View(bits, 64 * first))
        decreases length
      {
        var b: nat := bits[first];
        ghost var before := n;
        while b > 0
          invariant n + PopCount.OnesIn(b) == before + PopCount.OnesIn(bits[first])
          decreases b
        {
          PopCount.ByteStep(b);
          n := n + PopCount.CountTable(And(b, 255));
          b := Shr(b, 8);
        }
        OnesOfBlock(bits, first);
        first := first + 1;
        length := length - 1;
      }
      if Valid() {
        OnesOfTrimmed(bits, nums);
        OnesIsCardinality(Contents());
      }
    }

    /** First one in block `i` or later. */
    method FindFrom(i: nat) returns (p: Option<nat>)
      requires Sized() && i <= |bits|
      ensures p == NextSet(Raw(), 64 * i)
    {
      var j := i;
      while j < |bits| && bits[j] == 0
        invariant i <= j <= |bits|
        invariant forall k | 64 * i <= k < 64 * j :: !Raw()[k]
      {
        forall k | 64 * j <= k < 64 * (j + 1)
          ensures !Raw()[k]
        {
          BitConst(k % 64);
        }
        j := j + 1;
      }
      if j >= |bits| {
        NextSetNone(Raw(), 64 * i);
        return None;
      }
      var low := LowestBit(bits[j]);
      p := Some(64 * j + low);
      BitAtSplit(bits, j, low);
      forall k | 64 * j <= k < 64 * j + low
        ensures !Raw()[k]
      {
        BitAtSplit(bits, j, k - 64 * j);
      }
      NextSetSome(Raw(), 64 * i, 64 * j + low);
    }

    method FindFirst() returns (p: Option<nat>)
      requires Sized()
      ensures p == NextSet(Raw(), 0)
      ensures Valid() ==> p == NextSet(Contents(), 0)
    {
      p := FindFrom(0);
      if Valid() {
        NextSetTrimmed(bits, nums, 0);
      }
    }

    method FindNext(i: nat) returns (p: Option<nat>)
      requires Valid()
      ensures p == NextSet(Contents(), i + 1)
    {
      if nums == 0 || i >= nums - 1 {
        assert i + 1 >= |Contents()|;
        return None;
      }
      p := FindInBlock(i + 1);
      NextSetTrimmed(bits, nums, i + 1);
    }

    /** Lines 428-430: the rest of the block of bit `n`, then the blocks after it. */
    method FindInBlock(n: nat) returns (p: Option<nat>)
      requires Sized() && n < nums
      ensures p == NextSet(Raw(), n)
    {
      var bi := n / 64;
      var b := And(bits[bi], Shl(ALL_ONES, n % 64));
      if b != 0 {
        var low := LowestBit(b);
        p := Some(bi * 64 + low);
        FoundInBlock(bits, n, low);
      } else {
        p := FindFrom(bi + 1);
        NothingInBlock(bits, n);
      }
    }
  }

  lemma LessByBlocks(xb: seq<Word>, xn: nat, yb: seq<Word>, yn: nat)
    ensures forall r | 0 <= r < |xb| && r < |yb| && xb[..r] == yb[..r] && xb[r] != yb[r] ::
              LessThan(xb, xn, yb, yn) == (xb[r] < yb[r])
    ensures xb <= yb || yb <= xb ==> LessThan(xb, xn, yb, yn) == (xn < yn)
  {
    forall r | 0 <= r < |xb| && r < |yb| && xb[..r] == yb[..r] && xb[r] != yb[r]
      ensures LessThan(xb, xn, yb, yn) == (xb[r] < yb[r])
    {
      LessDecided(xb, xn, yb, yn, r);
    }
    if xb <= yb || yb <= xb {
      LessDecided(xb, xn, yb, yn, if |xb| < |yb| then |xb| else |yb|);
    }
  }

  /** operator< */
  method Less(x: BitVector, y: BitVector) returns (less: bool)
    ensures less == LessThan(x.bits, x.nums, y.bits, y.nums)
    ensures forall r | 0 <= r < |x.bits| && r < |y.bits| && x.bits[..r] == y.bits[..r] && x.bits[r] != y.bits[r] ::
              less == (x.bits[r] < y.bits[r])
    ensures x.bits <= y.bits || y.bits <= x.bits ==> less == (x.nums < y.nums)
  {
    LessByBlocks(x.bits, x.nums, y.bits, y.nums);
    var b := if |x.bits| < |y.bits| then |x.bits| else |y.bits|;
    var r := 0;
    while r < b
      invariant 0 <= r <= b
      invariant LessThan(x.bits, x.nums, y.bits, y.nums) == LessThan(x.bits[r..], x.nums, y.bits[r..], y.nums)
    {
      if x.bits[r] < y.bits[r] {
        return true;
      }
      if x.bits[r] > y.bits[r] {
        return false;
      }
      assert x.bits[r..][1..] == x.bits[r + 1..] && y.bits[r..][1..] == y.bits[r + 1..];
      r := r + 1;
    }
    return y.nums > x.nums;
  }
}
