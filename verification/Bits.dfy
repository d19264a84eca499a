/** Block arithmetic of src/bitset.hpp and the plain bit sequences the packed bitset stands for. */
module Bits {
  import opened Basics
  import opened Words

  /** `bits_to_block` */
  function BlocksFor(n: nat): (blocks: nat)
    ensures 64 * blocks >= n && (blocks > 0 ==> 64 * (blocks - 1) < n)
  {
    n / 64 + (if n % 64 != 0 then 1 else 0)
  }

  predicate BitAt(bits: seq<Word>, i: nat)
    requires i < 64 * |bits|
  {
    Bit(bits[i / 64], i % 64)
  }

  /** The first `n` bits of the blocks, lowest first. */
  function View(bits: seq<Word>, n: nat): (m: seq<bool>)
    requires n <= 64 * |bits|
    ensures |m| == n
  {
    seq(n, i requires 0 <= i < n => BitAt(bits, i))
  }

  predicate Fits(bits: seq<Word>, n: nat) {
    |bits| == BlocksFor(n)
  }

  /** The bits of the last block that are past the size are zero. */
  ghost predicate Trimmed(bits: seq<Word>, n: nat)
    requires Fits(bits, n)
  {
    forall i | n <= i < 64 * |bits| :: !BitAt(bits, i)
  }

  // ------------------------------------------- what the operations should do

  function ShiftedLeft(m: seq<bool>, n: nat): (r: seq<bool>)
    ensures |r| == |m|
  {
    seq(|m|, k requires 0 <= k < |m| => k >= n && m[k - n])
  }

  function ShiftedRight(m: seq<bool>, n: nat): (r: seq<bool>)
    ensures |r| == |m|
  {
    seq(|m|, k requires 0 <= k < |m| => k + n < |m| && m[k + n])
  }

  function Resized(m: seq<bool>, n: nat, value: bool): (r: seq<bool>)
    ensures |r| == n
  {
    seq(n, k requires 0 <= k < n => if k < |m| then m[k] else value)
  }

  function Constant(n: nat, value: bool): (r: seq<bool>)
    ensures |r| == n
  {
    seq(n, k requires 0 <= k < n => value)
  }

  function Complement(m: seq<bool>): (r: seq<bool>)
    ensures |r| == |m|
  {
    seq(|m|, k requires 0 <= k < |m| => !m[k])
  }

  /** First true position at or after `from`. */
  function NextSet(m: seq<bool>, from: nat): (r: Option<nat>)
    ensures r.Some? ==> from <= r.value < |m| && m[r.value] && forall j | from <= j < r.value :: !m[j]
    ensures r.None? ==> forall j | from <= j < |m| :: !m[j]
    decreases |m| - from
  {
    if from >= |m| then None
    else if m[from] then Some(from)
    else NextSet(m, from + 1)
  }

  /** Number of true positions. */
  function Ones(m: seq<bool>): nat {
    if m == [] then 0 else Digit(m[0]) + Ones(m[1..])
  }

  ghost function Positions(m: seq<bool>): set<nat> {
    set i: nat | i < |m| && m[i]
  }

  /** Positions seen by find_first followed by repeated find_next. */
  function Visits(m: seq<bool>, from: nat): seq<nat>
    decreases |m| - from
  {
    match NextSet(m, from)
    case None => []
    case Some(p) => [p] + Visits(m, p + 1)
  }

  // ------------------------------------------------------ laws of the sequences

  /** Shifts and resizes cut off one end and fill up the other. */
  lemma CutAndFilled(m: seq<bool>, n: nat, value: bool)
    ensures var k := Min(n, |m|);
            && ShiftedLeft(m, n) == Constant(k, false) + m[..|m| - k]
            && ShiftedRight(m, n) == m[k..] + Constant(k, false)
            && Resized(m, n, value) == m[..k] + Constant(n - k, value)
  {
  }

  /** The one positions of a constant and of a complement. */
  lemma ConstantPositions(m: seq<bool>, n: nat)
    ensures Positions(Constant(n, false)) == {} && forall k: nat :: k in Positions(Constant(n, true)) <==> k < n
    ensures Positions(Complement(m)) == Positions(Constant(|m|, true)) - Positions(m)
  {
  }

  lemma {:induction false} OnesAppend(a: seq<bool>, b: seq<bool>)
    ensures Ones(a + b) == Ones(a) + Ones(b)
  {
    if a == [] {
      assert a + b == b;
    } else {
      OnesAppend(a[1..], b);
      assert (a + b)[1..] == a[1..] + b;
    }
  }

  lemma {:induction false} OnesZero(m: seq<bool>)
    requires forall i | 0 <= i < |m| :: !m[i]
    ensures Ones(m) == 0
  {
    if m != [] {
      OnesZero(m[1..]);
    }
  }

  /** `count()` is the cardinality of the set of one positions. */
  lemma {:induction false} OnesIsCardinality(m: seq<bool>)
    ensures Ones(m) == |Positions(m)|
  {
    if m == [] {
      assert Positions(m) == {};
    } else {
      var p := m[..|m| - 1];
      OnesIsCardinality(p);
      assert m == p + [m[|m| - 1]];
      OnesAppend(p, [m[|m| - 1]]);
      assert Positions(m) == Positions(p) + if m[|m| - 1] then {|m| - 1} else {};
    }
  }

  /** Scanning from `from` visits exactly the one positions from there on, in strictly increasing
      order. */
  lemma {:induction false} VisitsAll(m: seq<bool>, from: nat)
    ensures forall i, j | 0 <= i < j < |Visits(m, from)| :: Visits(m, from)[i] < Visits(m, from)[j]
    ensures forall p: nat :: p in Visits(m, from) <==> from <= p < |m| && m[p]
    decreases |m| - from
  {
    match NextSet(m, from)
    case None =>
    case Some(p) =>
      VisitsAll(m, p + 1);
      var rest := Visits(m, p + 1);
      assert forall j | 0 <= j < |rest| :: rest[j] in rest;
  }

  /** The scan makes as many visits as there are ones. */
  lemma {:induction false} VisitsCount(m: seq<bool>, from: nat)
    requires from <= |m|
    ensures |Visits(m, from)| == Ones(m[from..])
    decreases |m| - from
  {
    match NextSet(m, from)
    case None =>
      OnesZero(m[from..]);
    case Some(p) =>
      VisitsCount(m, p + 1);
      OnesFromFirst(m, from, p);
  }

  lemma OnesFromFirst(m: seq<bool>, from: nat, p: nat)
    requires from <= p < |m| && m[p] && forall j | from <= j < p :: !m[j]
    ensures Ones(m[from..]) == 1 + Ones(m[p + 1..])
  {
    assert m[from..] == m[from..p] + m[p..];
    OnesAppend(m[from..p], m[p..]);
    OnesZero(m[from..p]);
    assert m[p..][1..] == m[p + 1..];
  }

  /** The whole scan, as a client runs it: every set position once, in order, `count()` of them. */
  lemma ScanIsExact(m: seq<bool>)
    ensures var v := Visits(m, 0);
            && |v| == Ones(m) == |Positions(m)|
            && (forall p: nat :: p in v <==> p in Positions(m))
            && (forall i, j | 0 <= i < j < |v| :: v[i] < v[j])
  {
    VisitsAll(m, 0);
    VisitsCount(m, 0);
    assert m[0..] == m;
    OnesIsCardinality(m);
  }

  // ------------------------------------------------------- packed extensionality

  lemma BitAtSplit(bits: seq<Word>, j: nat, t: nat)
    requires j < |bits| && t < 64
    ensures 64 * j + t < 64 * |bits| && BitAt(bits, 64 * j + t) == Bit(bits[j], t)
  {
  }

  /** Trimmed bitsets of one size are equal block by block exactly when they are equal bit by bit:
      comparing the vectors, as operator== does, compares the sets. */
  lemma SameViewSameBlocks(a: seq<Word>, b: seq<Word>, n: nat)
    requires Fits(a, n) && Trimmed(a, n) && Fits(b, n) && Trimmed(b, n)
    ensures View(a, n) == View(b, n) <==> a == b
  {
    if View(a, n) == View(b, n) {
      forall j | 0 <= j < |a|
        ensures a[j] == b[j]
      {
        forall t | 0 <= t < 64
          ensures Bit(a[j], t) == Bit(b[j], t)
        {
          BitAtSplit(a, j, t);
          BitAtSplit(b, j, t);
          if 64 * j + t < n {
            assert View(a, n)[64 * j + t] == View(b, n)[64 * j + t];
          }
        }
        WordEquality(a[j], b[j]);
      }
    }
  }
}
