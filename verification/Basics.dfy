/** Small notions that several modules share. */
module Basics {

  type Byte = b: nat | b < 256

  datatype Option<+T> = None | Some(value: T)

  function Min(a: nat, b: nat): nat {
    if a < b then a else b
  }

  function Max(a: nat, b: nat): nat {
    if a > b then a else b
  }

  /** A smaller multiple of `n` lies at least `n` below a larger one. */
  lemma Multiple(a: nat, b: nat, n: nat)
    requires a < b
    ensures 0 <= a * n && a * n + n <= b * n
  {
    assert b * n == (a + 1) * n + (b - a - 1) * n;
  }

  /** Quotient and remainder are unique. */
  lemma Divided(q: nat, n: nat, r: nat)
    requires r < n
    ensures (q * n + r) / n == q && (q * n + r) % n == r
  {
    var x := q * n + r;
    assert x == x / n * n + x % n;
    if x / n < q {
      Multiple(x / n, q, n);
    } else if q < x / n {
      Multiple(q, x / n, n);
    }
  }
}
