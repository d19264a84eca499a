/** Fragment lists and the one byte sequence they stand for. */
module Fragments {

  function Flatten<T>(frags: seq<seq<T>>): seq<T> {
    if frags == [] then [] else Flatten(frags[..|frags| - 1]) + frags[|frags| - 1]
  }

  /** Number of elements in the first `i` fragments. */
  function Prefix<T>(frags: seq<seq<T>>, i: nat): nat
    requires i <= |frags|
  {
    if i == 0 then 0 else Prefix(frags, i - 1) + |frags[i - 1]|
  }

  function Total<T>(frags: seq<seq<T>>): nat {
    Prefix(frags, |frags|)
  }

  lemma {:induction false} PrefixMonotone<T>(frags: seq<seq<T>>, i: nat, j: nat)
    requires i <= j <= |frags|
    ensures Prefix(frags, i) <= Prefix(frags, j)
    ensures i < j ==> Prefix(frags, i) + |frags[i]| <= Prefix(frags, j)
  {
    if i < j {
      PrefixMonotone(frags, i, j - 1);
    }
  }

  lemma {:induction false} PrefixOfTake<T>(frags: seq<seq<T>>, n: nat, i: nat)
    requires i <= n <= |frags|
    ensures Prefix(frags[..n], i) == Prefix(frags, i)
  {
    if i > 0 {
      PrefixOfTake(frags, n, i - 1);
    }
  }

  lemma {:induction false} FlattenLength<T>(frags: seq<seq<T>>)
    ensures |Flatten(frags)| == Total(frags)
  {
    if frags != [] {
      var n := |frags| - 1;
      FlattenLength(frags[..n]);
      PrefixOfTake(frags, n, n);
    }
  }

  lemma FlattenOne<T>(s: seq<T>)
    ensures Flatten([s]) == s
  {
    assert [s][..0] == [];
  }

  lemma FlattenSnoc<T>(frags: seq<seq<T>>, s: seq<T>)
    ensures Flatten(frags + [s]) == Flatten(frags) + s
  {
    assert (frags + [s])[..|frags|] == frags;
  }

  /** Element `k` of fragment `i` sits after all earlier fragments. */
  lemma {:induction false} FlattenIndex<T>(frags: seq<seq<T>>, i: nat, k: nat)
    requires i < |frags| && k < |frags[i]|
    ensures Prefix(frags, i) + k < |Flatten(frags)|
    ensures Flatten(frags)[Prefix(frags, i) + k] == frags[i][k]
    decreases |frags|
  {
    var n := |frags| - 1;
    FlattenLength(frags[..n]);
    PrefixOfTake(frags, n, n);
    if i < n {
      PrefixMonotone(frags, i, n);
      PrefixOfTake(frags, n, i);
      FlattenIndex(frags[..n], i, k);
    }
  }
}
