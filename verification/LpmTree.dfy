/** The longest-prefix-match tree of src/lpmtree.hpp: a 256-way tree of heap nodes that answers as the
    map from inserted keys to their latest values does. */
module LpmTree {
  import opened Basics

  type Key = seq<Byte>

  datatype Entry<T> = Entry(key: Key, value: Option<T>)

  // -------------------------------------------------------- what the tree means

  /** Latest value inserted under each key; a stored null pointer is `None`. */
  function Entries<T>(history: seq<Entry<T>>): map<Key, Option<T>> {
    if history == [] then map[]
    else
      var last := history[|history| - 1];
      Entries(history[..|history| - 1])[last.key := last.value]
  }

  /** Each inserted value once, in first-insert order. */
  function FirstSeen<T(==)>(history: seq<Entry<T>>): seq<Option<T>> {
    if history == [] then []
    else
      var seen := FirstSeen(history[..|history| - 1]);
      var v := history[|history| - 1].value;
      if v in seen then seen else seen + [v]
  }

  predicate Stored<T>(entries: map<Key, Option<T>>, k: Key) {
    k in entries && entries[k].Some?
  }

  /** Length of the longest non-empty prefix of `q[..n]` that holds a value, 0 if there is none. */
  function BestLength<T>(entries: map<Key, Option<T>>, q: Key, n: nat): (r: nat)
    requires n <= |q|
    ensures r <= n && (r > 0 ==> Stored(entries, q[..r]))
    ensures forall j | r < j <= n :: !Stored(entries, q[..j])
  {
    if n == 0 then 0
    else if Stored(entries, q[..n]) then n
    else BestLength(entries, q, n - 1)
  }

  /** The map keeps, for each key ever inserted, the value of its last insert. */
  lemma {:induction false} EntriesAreLatest<T>(history: seq<Entry<T>>, k: Key)
    ensures k in Entries(history) <==> exists i :: 0 <= i < |history| && history[i].key == k
    ensures forall i | 0 <= i < |history| && history[i].key == k
                       && (forall j | i < j < |history| :: history[j].key != k) ::
              k in Entries(history) && Entries(history)[k] == history[i].value
  {
    if history != [] {
      var n := |history| - 1;
      EntriesAreLatest(history[..n], k);
      if k != history[n].key {
        forall i | 0 <= i < |history| && history[i].key == k
          ensures i < n && history[..n][i].key == k
        {
        }
      }
    }
  }

  /** The `i`-th insert is the last one of key `k`. */
  ghost predicate IsLatest<T>(history: seq<Entry<T>>, i: nat, k: Key) {
    i < |history| && history[i].key == k && forall j | i < j < |history| :: history[j].key != k
  }

  lemma {:induction false} LatestExists<T>(history: seq<Entry<T>>, k: Key) returns (i: nat)
    requires k in Entries(history)
    ensures IsLatest(history, i, k) && history[i].value == Entries(history)[k]
  {
    var n := |history| - 1;
    if history[n].key == k {
      i := n;
    } else {
      i := LatestExists(history[..n], k);
    }
  }

  /** In terms of the inserts alone: the best prefix was last inserted with a value, and every longer
      prefix of the query that was ever inserted was last inserted as a null. */
  lemma SearchMeaning<T>(history: seq<Entry<T>>, q: Key)
    ensures var n := BestLength(Entries(history), q, |q|);
            && (n > 0 ==> exists i: nat :: IsLatest(history, i, q[..n]) && history[i].value.Some?
                                      && history[i].value == Entries(history)[q[..n]])
            && (forall m, i: nat | n < m <= |q| && IsLatest(history, i, q[..m]) :: history[i].value == None)
  {
    var n := BestLength(Entries(history), q, |q|);
    if n > 0 {
      var i := LatestExists(history, q[..n]);
    }
    forall m, i: nat | n < m <= |q| && IsLatest(history, i, q[..m])
      ensures history[i].value == None
    {
      EntriesAreLatest(history, q[..m]);
      assert !Stored(Entries(history), q[..m]);
    }
  }

  ghost function FirstIndex<T>(history: seq<Entry<T>>, v: Option<T>): nat {
    if history == [] || history[0].value == v then 0 else 1 + FirstIndex(history[1..], v)
  }

  lemma {:induction false} FirstIndexBound<T>(history: seq<Entry<T>>, v: Option<T>)
    ensures FirstIndex(history, v) <= |history|
    ensures FirstIndex(history, v) < |history| <==> exists i :: 0 <= i < |history| && history[i].value == v
    ensures forall i | 0 <= i < FirstIndex(history, v) :: history[i].value != v
  {
    if history != [] && history[0].value != v {
      FirstIndexBound(history[1..], v);
      assert forall i | 0 < i < |history| :: history[i] == history[1..][i - 1];
      if i :| 0 <= i < |history| && history[i].value == v {
        assert history[1..][i - 1].value == v;
      }
    }
  }

  lemma {:induction false} FirstIndexAppend<T>(history: seq<Entry<T>>, e: Entry<T>, v: Option<T>)
    ensures FirstIndex(history + [e], v) ==
            if FirstIndex(history, v) < |history| || e.value == v then FirstIndex(history, v) else |history| + 1
  {
    FirstIndexBound(history, v);
    if history != [] && history[0].value != v {
      assert (history + [e])[1..] == history[1..] + [e];
      FirstIndexAppend(history[1..], e, v);
    }
  }

  /** `values()` holds exactly the inserted values. */
  lemma {:induction false} FirstSeenComplete<T>(history: seq<Entry<T>>)
    ensures forall v :: v in FirstSeen(history) <==> exists i :: 0 <= i < |history| && history[i].value == v
  {
    if history != [] {
      var n := |history| - 1;
      var h := history[..n];
      FirstSeenComplete(h);
      forall v
        ensures v in FirstSeen(history) <==> exists i :: 0 <= i < |history| && history[i].value == v
      {
        if v in FirstSeen(h) {
          var i :| 0 <= i < |h| && h[i].value == v;
          assert history[i].value == v;
        }
        if i :| 0 <= i < |history| && history[i].value == v && i < n {
          assert h[i].value == v;
        }
        assert history[n].value in FirstSeen(history);
      }
    }
  }

  /** `values()` is ordered by first insert, so it also lists no value twice. */
  lemma {:induction false} FirstSeenOrder<T>(history: seq<Entry<T>>)
    ensures forall a, b | 0 <= a < b < |FirstSeen(history)| ::
              FirstIndex(history, FirstSeen(history)[a]) < FirstIndex(history, FirstSeen(history)[b])
  {
    if history != [] {
      var h := history[..|history| - 1];
      var e := history[|history| - 1];
      FirstSeenOrder(h);
      assert history == h + [e];
      forall a, b | 0 <= a < b < |FirstSeen(history)|
        ensures FirstIndex(history, FirstSeen(history)[a]) < FirstIndex(history, FirstSeen(history)[b])
      {
        SeenIndex(h, e, FirstSeen(h)[a]);
        if b < |FirstSeen(h)| {
          SeenIndex(h, e, FirstSeen(h)[b]);
        } else {
          NewIndex(h, e);
        }
      }
    }
  }

  lemma SeenIndex<T>(h: seq<Entry<T>>, e: Entry<T>, v: Option<T>)
    requires v in FirstSeen(h)
    ensures FirstIndex(h + [e], v) == FirstIndex(h, v) < |h|
  {
    FirstSeenComplete(h);
    FirstIndexBound(h, v);
    FirstIndexAppend(h, e, v);
  }

  lemma NewIndex<T>(h: seq<Entry<T>>, e: Entry<T>)
    requires e.value !in FirstSeen(h)
    ensures FirstIndex(h + [e], e.value) == |h|
  {
    FirstSeenComplete(h);
    FirstIndexBound(h, e.value);
    FirstIndexAppend(h, e, e.value);
  }

  // ------------------------------------------------------------------ the tree

  class Node<T> {
    var index: Byte
    var value: Option<T>
    var child: seq<Node?<T>>

    constructor (index: Byte)
      ensures this.index == index && value == None
      ensures |child| == 256 && forall c | 0 <= c < 256 :: child[c] == null
    {
      this.index := index;
      value := None;
      child := seq(256, _ => null);
    }
  }

  class Tree<T(==)> {
    var root: Node<T>
    var values: seq<Option<T>>
    /** The node each path from the root leads to. */
    ghost var nodes: map<Key, Node<T>>
    /** All nodes of the tree. */
    ghost var repr: set<Node<T>>
    /** Every insert so far, oldest first. */
    ghost var history: seq<Entry<T>>

    ghost function Child(p: Key, c: Byte): Node?<T>
      reads this`nodes
    {
      if p + [c] in nodes then nodes[p + [c]] else null
    }

    /** The child of the node of `p` under `c` is the node of `p + [c]`; all prefixes of `p` lead to
        nodes. */
    ghost predicate NodeOk(p: Key)
      requires p in nodes && nodes[p] in repr
      reads this`nodes, this`repr, repr`child, repr`index
    {
      && |nodes[p].child| == 256
      && (forall c: Byte :: nodes[p].child[c] == Child(p, c))
      && (p != [] ==> nodes[p].index == p[|p| - 1])
      && (forall n | 0 <= n <= |p| :: p[..n] in nodes)
    }

    /** The links are those of one tree, and different paths lead to different nodes. */
    ghost predicate Linked()
      reads this`root, this`nodes, this`repr, repr`child, repr`index
    {
      && [] in nodes && nodes[[]] == root
      && (forall p | p in nodes :: nodes[p] in repr)
      && (forall p {:trigger NodeOk(p)} | p in nodes :: NodeOk(p))
      && (forall p, q {:trigger nodes[p], nodes[q]} | p in nodes && q in nodes && p != q :: nodes[p] != nodes[q])
    }

    /** Nodes hold the values of the map. */
    ghost predicate Holds(entries: map<Key, Option<T>>)
      requires forall p | p in nodes :: nodes[p] in repr
      reads this`nodes, this`repr, repr`value
    {
      && (forall k | k in entries :: k in nodes)
      && (forall p | p in nodes :: nodes[p].value == if p in entries then entries[p] else None)
    }

    ghost predicate Valid()
      reads this, repr
    {
      Linked() && Holds(Entries(history)) && values == FirstSeen(history)
    }

    constructor ()
      ensures Valid() && history == [] && fresh(repr)
    {
      root := new Node<T>(0);
      values := [];
      history := [];
      new;
      nodes := map[[] := root];
      repr := {root};
    }

    method Insert(key: Key, value: Option<T>)
      requires Valid()
      modifies this, repr
      ensures Valid() && history == old(history) + [Entry(key, value)]
      ensures fresh(repr - old(repr))
    {
      ghost var entries := Entries(history);
      var current := MakePath(key, entries);
      Store(current, key, value, entries);
      Remember(key, value);
    }

    /** The insert loop: the node the key leads to, with the missing ones allocated. */
    method MakePath(key: Key, ghost entries: map<Key, Option<T>>) returns (current: Node<T>)
      requires Linked() && Holds(entries)
      modifies this`nodes, this`repr, repr`child
      ensures Linked() && Holds(entries) && key in nodes && nodes[key] == current
      ensures fresh(repr - old(repr))
    {
      current := root;
      var i := 0;
      while i < |key|
        invariant 0 <= i <= |key|
        invariant Linked() && Holds(entries)
        invariant key[..i] in nodes && nodes[key[..i]] == current
        invariant fresh(repr - old(repr))
      {
        current := Descend(current, key, i, entries);
        i := i + 1;
      }
      assert key[..|key|] == key;
    }

    /** `values_` lists a value on its first insert only: lines 87-89. */
    method Remember(ghost key: Key, value: Option<T>)
      requires values == FirstSeen(history)
      modifies this`values, this`history
      ensures history == old(history) + [Entry(key, value)] && values == FirstSeen(history)
      ensures Entries(history) == Entries(old(history))[key := value]
    {
      history := history + [Entry(key, value)];
      assert history[..|history| - 1] == old(history);
      if value !in values {
        values := values + [value];
      }
    }

    /** The assignment after the insert loop. */
    method Store(current: Node<T>, ghost key: Key, value: Option<T>, ghost entries: map<Key, Option<T>>)
      requires Linked() && Holds(entries) && key in nodes && nodes[key] == current
      modifies current`value
      ensures Linked() && Holds(entries[key := value])
    {
      current.value := value;
    }

    /** One turn of the insert loop: the child for `key[i]`, allocated if it does not exist. */
    method Descend(current: Node<T>, key: Key, i: nat, ghost entries: map<Key, Option<T>>)
      returns (next: Node<T>)
      requires Linked() && Holds(entries) && i < |key|
      requires key[..i] in nodes && nodes[key[..i]] == current
      modifies this`nodes, this`repr, current`child
      ensures Linked() && Holds(entries)
      ensures key[..i + 1] in nodes && nodes[key[..i + 1]] == next
      ensures fresh(repr - old(repr))
    {
      var idx := key[i];
      assert key[..i + 1] == key[..i] + [idx];
      assert NodeOk(key[..i]) && current.child[idx] == Child(key[..i], idx);
      if current.child[idx] == null {
        Attach(current, key[..i], idx);
      }
      next := current.child[idx];
    }

    /** No path leads through a missing node. */
    lemma NothingBelow(path: Key)
      requires Linked() && path !in nodes
      ensures forall p | p in nodes && |p| >= |path| :: p[..|path|] != path
    {
      forall p | p in nodes && |p| >= |path|
        ensures p[..|path|] != path
      {
        assert NodeOk(p);
      }
    }

    method Attach(current: Node<T>, ghost path: Key, idx: Byte)
      requires Linked()
      requires path in nodes && nodes[path] == current && path + [idx] !in nodes
      modifies this`nodes, this`repr, current`child
      ensures Linked()
      ensures |current.child| == 256 && current.child[idx] != null
      ensures fresh(current.child[idx]) && current.child[idx].value == None
      ensures nodes == old(nodes)[path + [idx] := current.child[idx]]
      ensures fresh(repr - old(repr))
    {
      ghost var longer := path + [idx];
      NothingBelow(longer);
      assert NodeOk(path);
      var n := new Node<T>(idx);
      current.child := current.child[idx := n];
      nodes := nodes[longer := n];
      repr := repr + {n};
      assert forall c: Byte :: (longer + [c])[..|longer|] == longer;
      assert NodeOk(longer) by {
        assert forall j | 0 <= j <= |longer| :: longer[..j] == if j == |longer| then longer else path[..j];
      }
      forall p | p in nodes && p != longer
        ensures NodeOk(p)
      {
        assert old(NodeOk(p));
        forall c: Byte
          ensures p + [c] == longer <==> p == path && c == idx
        {
          LastSplit(p, c, path, idx);
        }
      }
    }

    method Search(q: Key) returns (found: Option<T>, prefix: Key)
      requires Valid()
      ensures var entries := Entries(history);
              var n := BestLength(entries, q, |q|);
              prefix == q[..n] && found == if n == 0 then None else entries[q[..n]]
    {
      ghost var entries := Entries(history);
      prefix := [];
      found := None;
      var matched: Key := [];
      var current := root;
      var i := 0;
      while i < |q|
        invariant 0 <= i <= |q| && matched == q[..i]
        invariant q[..i] in nodes && nodes[q[..i]] == current
        invariant prefix == q[..BestLength(entries, q, i)]
        invariant found == if prefix == [] then None else entries[prefix]
      {
        var idx := q[i];
        assert q[..i + 1] == q[..i] + [idx];
        assert NodeOk(q[..i]) && current.child[idx] == Child(q[..i], idx);
        if current.child[idx] == null {
          MissingEndsSearch(q, i);
          break;
        }
        current := current.child[idx];
        matched := matched + [idx];
        if current.value.Some? {
          found := current.value;
          prefix := matched;
        }
        i := i + 1;
      }
    }

    /** Where the tree has no child, no longer prefix is stored. */
    lemma MissingEndsSearch(q: Key, i: nat)
      requires Valid() && i < |q| && q[..i + 1] !in nodes
      ensures BestLength(Entries(history), q, |q|) == BestLength(Entries(history), q, i)
    {
      var entries := Entries(history);
      forall j | i < j <= |q|
        ensures !Stored(entries, q[..j])
      {
        assert q[..j][..i + 1] == q[..i + 1];
        assert q[..j] in nodes ==> NodeOk(q[..j]);
      }
      BestIsUnique(entries, q, |q|, i);
    }

    method Values() returns (r: seq<Option<T>>)
      requires Valid()
      ensures r == FirstSeen(history)
    {
      r := values;
    }
  }

  lemma LastSplit(p: Key, c: Byte, q: Key, d: Byte)
    ensures p + [c] == q + [d] <==> p == q && c == d
  {
    if p + [c] == q + [d] {
      assert (p + [c])[..|p|] == p && (q + [d])[..|p|] == q;
      assert (p + [c])[|p|] == c;
    }
  }

  lemma {:induction false} BestIsUnique<T>(entries: map<Key, Option<T>>, q: Key, n: nat, i: nat)
    requires i <= n <= |q| && forall j | i < j <= n :: !Stored(entries, q[..j])
    ensures BestLength(entries, q, n) == BestLength(entries, q, i)
    decreases n
  {
    if i < n {
      BestIsUnique(entries, q, n - 1, i);
    }
  }
}
