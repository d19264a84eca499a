/** The 64-bit unsigned words that src/bitset.hpp packs its bits into (`block_type`), and what each
    C++ word operator does to the single bits of a word. A word is its value, so order, `- 1` and
    table lookup are plain arithmetic; the bitwise operators go digit by digit from the low end. */
module Words {

  const WORD_BITS: nat := 64
  const WORD_LIMIT: nat := 0x1_0000_0000_0000_0000
  const ALL_ONES: Word := WORD_LIMIT - 1

  type Word = w: nat | w < 0x1_0000_0000_0000_0000

  function Pow2(k: nat): (p: nat)
    ensures p > 0
  {
    if k == 0 then 1 else 2 * Pow2(k - 1)
  }

  /** Binary digit `k` of `w`. */
  predicate Bit(w: nat, k: nat) {
    if k == 0 then w % 2 == 1 else Bit(w / 2, k - 1)
  }

  function Digit(b: bool): nat {
    if b then 1 else 0
  }

  function And(x: nat, y: nat): (r: nat)
    ensures r <= x
  {
    if x == 0 then 0 else Digit(x % 2 == 1 && y % 2 == 1) + 2 * And(x / 2, y / 2)
  }

  function Or(x: nat, y: nat): nat
    decreases x + y
  {
    if x == 0 && y == 0 then 0 else Digit(x % 2 == 1 || y % 2 == 1) + 2 * Or(x / 2, y / 2)
  }

  function Xor(x: nat, y: nat): nat
    decreases x + y
  {
    if x == 0 && y == 0 then 0 else Digit((x % 2 == 1) != (y % 2 == 1)) + 2 * Xor(x / 2, y / 2)
  }

  function Not(x: Word): Word {
    ALL_ONES - x
  }

  /** `w << r` for `r < 64`: each step doubles the word and drops the digit that leaves it. */
  function Shl(w: Word, r: nat): Word {
    if r == 0 then w
    else
      var v := Shl(w, r - 1);
      if 2 * v < WORD_LIMIT then 2 * v else 2 * v - WORD_LIMIT
  }

  /** `w >> r` for `r < 64` */
  function Shr(w: nat, r: nat): (v: nat)
    ensures v <= w
  {
    if r == 0 then w else Shr(w, r - 1) / 2
  }

  /** `block_type(1) << k` */
  function Mask(k: nat): Word {
    Shl(1, k)
  }

  // ------------------------------------------------------ bits of operators

  lemma {:induction false} BitHigh(w: nat, n: nat, k: nat)
    requires w < Pow2(n) && n <= k
    ensures !Bit(w, k)
  {
    if n > 0 {
      BitHigh(w / 2, n - 1, k - 1);
    } else if k > 0 {
      BitHigh(0, 0, k - 1);
    }
  }

  lemma Pow2Word()
    ensures Pow2(64) == WORD_LIMIT
  {
    assert Pow2(4) == 16;
    Pow2Add(4, 4);
    Pow2Add(8, 8);
    Pow2Add(16, 16);
    Pow2Add(32, 32);
  }

  lemma {:induction false} Pow2Add(a: nat, b: nat)
    ensures Pow2(a + b) == Pow2(a) * Pow2(b)
  {
    if b > 0 {
      Pow2Add(a, b - 1);
    }
  }

  lemma {:induction false} BitAnd(x: nat, y: nat, k: nat)
    ensures Bit(And(x, y), k) == (Bit(x, k) && Bit(y, k))
  {
    if x == 0 {
      BitHigh(0, 0, k);
    } else if k > 0 {
      BitAnd(x / 2, y / 2, k - 1);
    }
  }

  lemma {:induction false} BitOr(x: nat, y: nat, k: nat)
    ensures Bit(Or(x, y), k) == (Bit(x, k) || Bit(y, k))
    decreases k
  {
    if x == 0 && y == 0 {
      BitHigh(0, 0, k);
    } else if k > 0 {
      BitOr(x / 2, y / 2, k - 1);
    }
  }

  lemma {:induction false} BitXor(x: nat, y: nat, k: nat)
    ensures Bit(Xor(x, y), k) == (Bit(x, k) != Bit(y, k))
    decreases k
  {
    if x == 0 && y == 0 {
      BitHigh(0, 0, k);
    } else if k > 0 {
      BitXor(x / 2, y / 2, k - 1);
    }
  }

  lemma {:induction false} OrXorFit(x: nat, y: nat, n: nat)
    requires x < Pow2(n) && y < Pow2(n)
    ensures Or(x, y) < Pow2(n) && Xor(x, y) < Pow2(n)
    decreases n
  {
    if x != 0 || y != 0 {
      OrXorFit(x / 2, y / 2, n - 1);
    }
  }

  lemma {:induction false} BitComplement(x: nat, n: nat, k: nat)
    requires x < Pow2(n) && k < n
    ensures Bit(Pow2(n) - 1 - x, k) == !Bit(x, k)
  {
    if k > 0 {
      BitComplement(x / 2, n - 1, k - 1);
      assert (Pow2(n) - 1 - x) / 2 == Pow2(n - 1) - 1 - x / 2;
    }
  }

  lemma BitNot(x: Word, k: nat)
    requires k < WORD_BITS
    ensures Bit(Not(x), k) == !Bit(x, k)
  {
    Pow2Word();
    BitComplement(x, 64, k);
  }

  lemma BitConst(k: nat)
    ensures !Bit(0, k)
    ensures k < WORD_BITS ==> Bit(ALL_ONES, k)
  {
    BitHigh(0, 0, k);
    if k < WORD_BITS {
      BitNot(0, k);
    }
  }

  lemma BitOutside(w: Word, k: nat)
    requires WORD_BITS <= k
    ensures !Bit(w, k)
  {
    Pow2Word();
    BitHigh(w, 64, k);
  }

  lemma {:induction false} BitDropTop(w: nat, n: nat, k: nat)
    requires Pow2(n) <= w < 2 * Pow2(n)
    ensures Bit(w - Pow2(n), k) == (Bit(w, k) && k != n)
    decreases n
  {
    if n == 0 {
      BitHigh(0, 0, k);
    } else if k > 0 {
      assert (w - Pow2(n)) / 2 == w / 2 - Pow2(n - 1);
      BitDropTop(w / 2, n - 1, k - 1);
    }
  }

  lemma {:induction false} BitShl(w: Word, r: nat, k: nat)
    requires k < WORD_BITS
    ensures Bit(Shl(w, r), k) == (k >= r && Bit(w, k - r))
    decreases r
  {
    if r > 0 {
      var v := Shl(w, r - 1);
      Pow2Word();
      if 2 * v >= WORD_LIMIT {
        BitDropTop(2 * v, 64, k);
      }
      if k > 0 {
        BitShl(w, r - 1, k - 1);
      }
    }
  }

  lemma {:induction false} BitShr(w: nat, r: nat, k: nat)
    ensures Bit(Shr(w, r), k) == Bit(w, k + r)
  {
    if r > 0 {
      BitShr(w, r - 1, k + 1);
    }
  }

  lemma BitMask(j: nat, k: nat)
    requires j < WORD_BITS && k < WORD_BITS
    ensures Bit(Mask(j), k) == (j == k)
  {
    BitShl(1, j, k);
    if k > j {
      BitHigh(0, 0, k - j - 1);
    }
  }

  /** Words are equal exactly when their 64 bits are. */
  lemma {:induction false} SameBits(x: nat, y: nat, n: nat)
    requires x < Pow2(n) && y < Pow2(n)
    requires forall k | 0 <= k < n :: Bit(x, k) == Bit(y, k)
    ensures x == y
    decreases n
  {
    if n > 0 {
      assert Bit(x, 0) == Bit(y, 0);
      forall k | 0 <= k < n - 1
        ensures Bit(x / 2, k) == Bit(y / 2, k)
      {
        assert Bit(x, k + 1) == Bit(y, k + 1);
      }
      SameBits(x / 2, y / 2, n - 1);
    }
  }

  lemma WordEquality(x: Word, y: Word)
    requires forall k | 0 <= k < WORD_BITS :: Bit(x, k) == Bit(y, k)
    ensures x == y
  {
    Pow2Word();
    SameBits(x, y, 64);
  }

  // ------------------------------------------------------- C++ word operators

  function WordOr(x: Word, y: Word): Word {
    Pow2Word();
    OrXorFit(x, y, 64);
    Or(x, y)
  }

  function WordXor(x: Word, y: Word): Word {
    Pow2Word();
    OrXorFit(x, y, 64);
    Xor(x, y)
  }

  // -------------------------------------------------------------- lowest bit

  /** `b - (b & (b - 1))` keeps only the lowest one digit. */
  lemma {:induction false} IsolateLowest(b: nat, k: nat)
    requires Bit(b, k) && forall j | 0 <= j < k :: !Bit(b, j)
    ensures b > 0 && b - And(b, b - 1) == Pow2(k)
    decreases k
  {
    if k == 0 {
      AndSelf(b / 2);
    } else {
      assert !Bit(b, 0);
      forall j | 0 <= j < k - 1
        ensures !Bit(b / 2, j)
      {
        assert !Bit(b, j + 1);
      }
      IsolateLowest(b / 2, k - 1);
      assert (b - 1) / 2 == b / 2 - 1;
    }
  }

  lemma {:induction false} AndSelf(x: nat)
    ensures And(x, x) == x
  {
    if x > 0 {
      AndSelf(x / 2);
    }
  }

  /** A non-zero word has a lowest one digit. */
  lemma {:induction false} LowestExists(b: nat, n: nat) returns (k: nat)
    requires 0 < b < Pow2(n)
    ensures k < n && Bit(b, k) && forall j | 0 <= j < k :: !Bit(b, j)
    decreases n
  {
    if b % 2 == 1 {
      k := 0;
    } else {
      var h := LowestExists(b / 2, n - 1);
      k := h + 1;
      forall j | 0 <= j < k
        ensures !Bit(b, j)
      {
        if j > 0 {
          assert !Bit(b / 2, j - 1);
        }
      }
    }
  }
}
