/** The random-access iterator over a buffer sequence, buffers_iterator.hpp of asio 1.10.8. */
module BuffersIterator {
  import opened Basics
  import opened Fragments

  /** A place in a buffer sequence: the current buffer, the offset in it, and the byte count before. */
  datatype Cursor = Cursor(current: nat, offset: nat, position: nat)

  /** Where an iterator may rest: inside a non-empty buffer, or past the last one. */
  predicate AtRest(buffers: seq<seq<Byte>>, c: Cursor) {
    && c.current <= |buffers|
    && c.position == Prefix(buffers, c.current) + c.offset
    && (if c.current < |buffers| then c.offset < |buffers[c.current]| else c.offset == 0)
  }

  /** The position alone determines the place, so comparing positions, as `equal` does, compares
      iterators, and every way of moving to a position ends in the same place. */
  lemma RestIsUnique(buffers: seq<seq<Byte>>, a: Cursor, b: Cursor)
    requires AtRest(buffers, a) && AtRest(buffers, b)
    ensures a.position == b.position <==> a == b
    ensures a.position < b.position <==>
            a.current < b.current || (a.current == b.current && a.offset < b.offset)
  {
    if a.current < b.current {
      PrefixMonotone(buffers, a.current, b.current);
    } else if b.current < a.current {
      PrefixMonotone(buffers, b.current, a.current);
    }
  }

  /** One step forward from a resting place. */
  ghost predicate Successor(buffers: seq<seq<Byte>>, a: Cursor, b: Cursor) {
    AtRest(buffers, a) && AtRest(buffers, b) && b.position == a.position + 1
  }

  /** A path of single steps. */
  ghost predicate Walk(buffers: seq<seq<Byte>>, path: seq<Cursor>) {
    |path| > 0 && forall i | 0 < i < |path| :: Successor(buffers, path[i - 1], path[i])
  }

  /** Wherever a move of `n` ends, `n` single steps end in exactly the same place; read backwards, the
      same path is `n` steps back. */
  lemma {:induction false} StepsLandTogether(buffers: seq<seq<Byte>>, path: seq<Cursor>, c: Cursor)
    requires Walk(buffers, path) && AtRest(buffers, path[0]) && AtRest(buffers, c)
    ensures c.position == path[0].position + |path| - 1 <==> c == path[|path| - 1]
    decreases |path|
  {
    var n := |path| - 1;
    if n == 0 {
      RestIsUnique(buffers, path[0], c);
    } else {
      assert Successor(buffers, path[n - 1], path[n]);
      if n > 1 {
        assert Successor(buffers, path[n - 2], path[n - 1]);
      }
      StepsLandTogether(buffers, path[..n], path[n - 1]);
      RestIsUnique(buffers, path[n], c);
    }
  }

  class Iterator {
    const buffers: seq<seq<Byte>>
    var current: nat
    var currentBuffer: seq<Byte>
    var offset: nat
    var position: nat

    ghost function Place(): Cursor
      reads this
    {
      Cursor(current, offset, position)
    }

    ghost predicate Valid()
      reads this
    {
      AtRest(buffers, Place()) && (current < |buffers| ==> currentBuffer == buffers[current])
    }

    constructor Begin(buffers: seq<seq<Byte>>)
      ensures Valid() && this.buffers == buffers && position == 0
    {
      this.buffers := buffers;
      current, currentBuffer, offset, position := 0, [], 0, 0;
      new;
      SkipEmpty();
    }

    constructor End(buffers: seq<seq<Byte>>)
      ensures Valid() && this.buffers == buffers
      ensures current == |buffers| && position == |Flatten(buffers)|
    {
      this.buffers := buffers;
      current, currentBuffer, offset, position := 0, [], 0, 0;
      new;
      while current != |buffers|
        invariant current <= |buffers| && offset == 0 && position == Prefix(buffers, current)
        invariant this.buffers == buffers
        decreases |buffers| - current
      {
        position := position + |buffers[current]|;
        current := current + 1;
      }
      FlattenLength(buffers);
    }

    /** The loops that end `begin` and `increment`: go on to the next non-empty buffer. */
    method SkipEmpty()
      requires current <= |buffers| && offset == 0 && position == Prefix(buffers, current)
      modifies this`current, this`currentBuffer
      ensures Valid()
    {
      while current != |buffers|
        invariant current <= |buffers| && position == Prefix(buffers, current)
        decreases |buffers| - current
      {
        currentBuffer := buffers[current];
        if |currentBuffer| > 0 {
          return;
        }
        current := current + 1;
      }
    }

    method Dereference() returns (b: Byte)
      requires Valid() && current != |buffers|
      ensures position < |Flatten(buffers)| && b == Flatten(buffers)[position]
    {
      b := currentBuffer[offset];
      FlattenIndex(buffers, current, offset);
    }

    method Increment()
      requires Valid() && current != |buffers|
      modifies this
      ensures Valid() && Successor(buffers, old(Place()), Place())
    {
      position := position + 1;
      offset := offset + 1;
      if offset != |currentBuffer| {
        return;
      }
      current := current + 1;
      offset := 0;
      SkipEmpty();
    }

    /** The loops of `decrement` and `advance` that look back for a non-empty buffer. There is one
        whenever they are reached. */
    method PreviousNonEmpty() returns (iter: nat)
      requires current <= |buffers| && Prefix(buffers, current) > 0
      ensures iter < current && |buffers[iter]| > 0
      ensures Prefix(buffers, current) == Prefix(buffers, iter) + |buffers[iter]|
    {
      iter := current;
      while iter != 0
        invariant iter <= current && Prefix(buffers, iter) == Prefix(buffers, current)
        decreases iter
      {
        iter := iter - 1;
        if |buffers[iter]| > 0 {
          return;
        }
      }
      assert false;
    }

    method Decrement()
      requires Valid() && position > 0
      modifies this
      ensures Valid() && Successor(buffers, Place(), old(Place()))
    {
      position := position - 1;
      if offset != 0 {
        offset := offset - 1;
        return;
      }
      var iter := PreviousNonEmpty();
      current := iter;
      currentBuffer := buffers[iter];
      offset := |buffers[iter]| - 1;
    }

    /** `advance(n)`. The bounds are the ones the code asserts: not before the first byte, not past the
        end. */
    method Advance(n: int)
      requires Valid() && 0 <= position + n <= |Flatten(buffers)|
      modifies this
      ensures Valid() && position == old(position) + n
    {
      FlattenLength(buffers);
      if n > 0 {
        Forward(n);
      } else if n < 0 {
        Backward(-n);
      }
    }

    method Forward(distance: nat)
      requires Valid() && 0 < distance && position + distance <= Total(buffers)
      modifies this
      ensures Valid() && position == old(position) + distance
    {
      var n := distance;
      while true
        invariant 0 <= n && position + n == old(position) + distance
        invariant current < |buffers| && currentBuffer == buffers[current] && offset <= |currentBuffer|
        invariant position == Prefix(buffers, current) + offset
        decreases |buffers| - current
      {
        var balance := |currentBuffer| - offset;
        if balance > n {
          position := position + n;
          offset := offset + n;
          return;
        }
        n := n - balance;
        position := position + balance;
        current := current + 1;
        offset := 0;
        if current == |buffers| {
          currentBuffer := [];
          return;
        }
        currentBuffer := buffers[current];
      }
    }

    method Backward(distance: nat)
      requires Valid() && 0 < distance <= position
      modifies this
      ensures Valid() && position == old(position) - distance
    {
      var n := distance;
      while true
        invariant 0 < n <= position && position - n == old(position) - distance
        invariant current <= |buffers| && position == Prefix(buffers, current) + offset
        invariant if current < |buffers| then currentBuffer == buffers[current] && offset <= |currentBuffer|
                  else offset == 0
        decreases current
      {
        if offset >= n {
          position := position - n;
          offset := offset - n;
          return;
        }
        n := n - offset;
        position := position - offset;
        assert current != 0;
        var iter := PreviousNonEmpty();
        current := iter;
        currentBuffer := buffers[iter];
        offset := |buffers[iter]|;
      }
    }
  }
}
