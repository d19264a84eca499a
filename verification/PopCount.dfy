/** Counting the ones of a word a byte at a time: src/bitset.cpp:10-24 and 392-396. */
module PopCount {
  import opened Words
  import opened Bits

  /** `count_table`: its 256 entries in order, sixteen to a row. */
  const COUNT_TABLE: seq<seq<nat>> := [
    [0, 1, 1, 2, 1, 2, 2, 3, 1, 2, 2, 3, 2, 3, 3, 4],
    [1, 2, 2, 3, 2, 3, 3, 4, 2, 3, 3, 4, 3, 4, 4, 5],
    [1, 2, 2, 3, 2, 3, 3, 4, 2, 3, 3, 4, 3, 4, 4, 5],
    [2, 3, 3, 4, 3, 4, 4, 5, 3, 4, 4, 5, 4, 5, 5, 6],
    [1, 2, 2, 3, 2, 3, 3, 4, 2, 3, 3, 4, 3, 4, 4, 5],
    [2, 3, 3, 4, 3, 4, 4, 5, 3, 4, 4, 5, 4, 5, 5, 6],
    [2, 3, 3, 4, 3, 4, 4, 5, 3, 4, 4, 5, 4, 5, 5, 6],
    [3, 4, 4, 5, 4, 5, 5, 6, 4, 5, 5, 6, 5, 6, 6, 7],
    [1, 2, 2, 3, 2, 3, 3, 4, 2, 3, 3, 4, 3, 4, 4, 5],
    [2, 3, 3, 4, 3, 4, 4, 5, 3, 4, 4, 5, 4, 5, 5, 6],
    [2, 3, 3, 4, 3, 4, 4, 5, 3, 4, 4, 5, 4, 5, 5, 6],
    [3, 4, 4, 5, 4, 5, 5, 6, 4, 5, 5, 6, 5, 6, 6, 7],
    [2, 3, 3, 4, 3, 4, 4, 5, 3, 4, 4, 5, 4, 5, 5, 6],
    [3, 4, 4, 5, 4, 5, 5, 6, 4, 5, 5, 6, 5, 6, 6, 7],
    [3, 4, 4, 5, 4, 5, 5, 6, 4, 5, 5, 6, 5, 6, 6, 7],
    [4, 5, 5, 6, 5, 6, 6, 7, 5, 6, 6, 7, 6, 7, 7, 8]
  ]

  const NIBBLE: seq<nat> := [0, 1, 1, 2, 1, 2, 2, 3, 1, 2, 2, 3, 2, 3, 3, 4]

  /** `count_table[i]` */
  function CountTable(i: nat): nat
    requires i < 256
  {
    TableRow(i / 16, i % 16);
    COUNT_TABLE[i / 16][i % 16]
  }

  /** Number of one digits. */
  function OnesIn(w: nat): nat {
    if w == 0 then 0 else w % 2 + OnesIn(w / 2)
  }

  lemma TableRow(h: nat, t: nat)
    requires h < 16 && t < 16
    ensures |COUNT_TABLE| == 16 && |COUNT_TABLE[h]| == 16 && COUNT_TABLE[h][t] == NIBBLE[h] + NIBBLE[t]
  {
  }

  lemma {:induction false} NibbleOnes(t: nat)
    requires t < 16
    ensures NIBBLE[t] == OnesIn(t)
  {
    if t > 1 {
      NibbleOnes(t / 2);
      assert NIBBLE[t] == NIBBLE[t / 2] + t % 2;
    }
  }

  lemma AndOdd(w: nat, m: nat)
    ensures And(w, 2 * m + 1) == w % 2 + 2 * And(w / 2, m)
  {
  }

  /** The low `n` digits. */
  function Low(w: nat, n: nat): nat {
    if n == 0 then 0 else w % 2 + 2 * Low(w / 2, n - 1)
  }

  lemma {:induction false} LowIsMasked(w: nat, n: nat)
    ensures And(w, Pow2(n) - 1) == Low(w, n)
  {
    if n > 0 {
      LowIsMasked(w / 2, n - 1);
      AndOdd(w, Pow2(n - 1) - 1);
    } else {
      AndZero(w);
    }
  }

  /** The low `n` digits and the rest can be counted apart. */
  lemma {:induction false} OnesSplit(w: nat, n: nat)
    ensures OnesIn(w) == OnesIn(Low(w, n)) + OnesIn(Shr(w, n))
  {
    if n > 0 {
      ShrFirst(w, n);
      OnesSplit(w / 2, n - 1);
      OnesShift(Low(w / 2, n - 1), w);
      OnesShift(w / 2, w);
    }
  }

  lemma OnesShift(x: nat, y: nat)
    ensures OnesIn(2 * x + y % 2) == OnesIn(x) + y % 2
  {
  }

  lemma DoubleHigh(low: nat, p: nat, high: nat)
    ensures 2 * (low + p * high) == 2 * low + 2 * p * high
  {
  }

  /** A word is its low `n` digits and the rest moved up. */
  lemma {:induction false} SplitValue(w: nat, n: nat)
    ensures Low(w, n) < Pow2(n) && w == Low(w, n) + Pow2(n) * Shr(w, n)
  {
    if n > 0 {
      ShrFirst(w, n);
      SplitValue(w / 2, n - 1);
      DoubleHigh(Low(w / 2, n - 1), Pow2(n - 1), Shr(w, n));
    }
  }

  lemma BaseSixteen(w: nat, low: nat, high: nat)
    requires low < 16 && w == low + 16 * high
    ensures low == w % 16 && high == w / 16
  {
  }

  /** The two digits of a byte in base 16. */
  lemma Nibbles(w: nat, n: nat)
    requires Pow2(n) == 16
    ensures OnesIn(w) == OnesIn(w % 16) + OnesIn(w / 16)
  {
    SplitValue(w, n);
    OnesSplit(w, n);
    BaseSixteen(w, Low(w, n), Shr(w, n));
  }

  lemma PowerOfFour()
    ensures Pow2(4) == 16
  {
  }

  lemma {:induction false} AndZero(w: nat)
    ensures And(w, 0) == 0
  {
    if w > 0 {
      AndZero(w / 2);
    }
  }

  lemma {:induction false} ShrFirst(w: nat, n: nat)
    requires n > 0
    ensures Shr(w, n) == Shr(w / 2, n - 1)
  {
    if n > 1 {
      ShrFirst(w, n - 1);
    }
  }

  /** Every entry of the table is the number of ones of its index. */
  lemma TableIsOnes(i: nat)
    requires i < 256
    ensures CountTable(i) == OnesIn(i)
  {
    TableRow(i / 16, i % 16);
    NibbleOnes(i / 16);
    NibbleOnes(i % 16);
    PowerOfFour();
    Nibbles(i, 4);
  }

  /** One turn of the counting loop. */
  lemma ByteStep(w: nat)
    ensures And(w, 255) < 256 && CountTable(And(w, 255)) + OnesIn(Shr(w, 8)) == OnesIn(w)
    ensures w > 0 ==> Shr(w, 8) < w
  {
    assert Pow2(8) == 256;
    LowIsMasked(w, 8);
    OnesSplit(w, 8);
    SplitValue(w, 8);
    TableIsOnes(And(w, 255));
    assert Shr(w, 1) == w / 2;
    ShrAtMost(w, 7);
  }

  lemma {:induction false} ShrAtMost(w: nat, n: nat)
    ensures Shr(w, n + 1) <= w / 2
  {
    if n > 0 {
      ShrAtMost(w, n - 1);
    }
  }

  /** Digits of a word counted as bits of a view. */
  lemma {:induction false} OnesInIsOnes(w: nat, n: nat)
    requires w < Pow2(n)
    ensures OnesIn(w) == Ones(seq(n, k requires 0 <= k < n => Bit(w, k)))
    decreases n
  {
    var m := seq(n, k requires 0 <= k < n => Bit(w, k));
    if n > 0 {
      OnesInIsOnes(w / 2, n - 1);
      assert m[1..] == seq(n - 1, k requires 0 <= k < n - 1 => Bit(w / 2, k));
      assert m[0] == (w % 2 == 1);
    }
  }
}
