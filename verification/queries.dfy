/** What the lookups and accessors return on a valid list, stated against
    the arena in level-0 order: `Rank` (how many keys are less) for the
    lower bound, the position of an equal key for the search. */
module Queries {
  import opened Options
  import opened Order
  import opened Levels
  import opened Layout
  import opened Descent
  import opened Engine
  import opened Canon
  import opened Contents

  /** The empty list satisfies the representation invariant and holds nothing. */
  lemma {:induction false} NewSkipListValid<V>()
    ensures Valid(NewSkipList<V>())
    ensures Entries(NewSkipList<V>().nodes) == []
  {
    var l := NewSkipList<V>();
    forall c, i: nat {:trigger Link(l, c, i)} | IsCursor(l, c) && Reaches(l, c, i)
      ensures Link(l, c, i) == KeyAt(l.nodes, NextAt(Heights(l.nodes), c, i))
    {
    }
  }

  /** The descent of the lookups, followed by one level-0 step, lands on the
      first node whose key is not less than `key`. */
  lemma {:induction false} LookupLands<V>(l: SkipList<V>, key: Key)
    requires Valid(l)
    ensures var r := Rank(l.nodes, key);
      Deref(l, Link(l, Walk(l, -1, l.level - 1, key), 0)) == (if r < |l.nodes| then Some(l.nodes[r]) else None)
  {
    var r := Rank(l.nodes, key);
    var x := Walk(l, -1, l.level - 1, key);
    WalkFinds(l, -1, l.level - 1, key);
    NextAtZero(l, x);
    assert Link(l, x, 0) == KeyAt(l.nodes, NextAt(Heights(l.nodes), x, 0));
    if r < |l.nodes| {
      LocateAt(l.nodes, r);
    }
  }

  /** In a sorted arena an equal key can only sit at the rank of the key. */
  lemma {:induction false} EqualKeyAtRank<V>(nodes: seq<Node<V>>, key: Key, j: int)
    requires Sorted(nodes) && 0 <= j < |nodes| && SameKey(nodes[j].key, key)
    ensures j == Rank(nodes, key)
  {
    var r := Rank(nodes, key);
    assert forall k :: 0 <= k < j ==> Less(nodes[k].key, nodes[j].key);
    assert r < |nodes| ==> !Less(nodes[r].key, key);
  }

  /** SearchNode returns the node whose key equals `key` exactly when there
      is one. */
  lemma {:induction false} SearchNodeFinds<V>(l: SkipList<V>, key: Key)
    requires Valid(l)
    ensures forall j :: 0 <= j < |l.nodes| && SameKey(l.nodes[j].key, key) ==> SearchNode(l, key) == Some(l.nodes[j])
    ensures (forall j :: 0 <= j < |l.nodes| ==> !SameKey(l.nodes[j].key, key)) ==> SearchNode(l, key) == None
  {
    LookupLands(l, key);
    forall j | 0 <= j < |l.nodes| && SameKey(l.nodes[j].key, key)
      ensures SearchNode(l, key) == Some(l.nodes[j])
    {
      EqualKeyAtRank(l.nodes, key, j);
    }
  }

  /** Search returns the value stored under `key`, or None when no key is equal. */
  lemma {:induction false} SearchFinds<V>(l: SkipList<V>, key: Key)
    requires Valid(l)
    ensures forall j :: 0 <= j < |l.nodes| && SameKey(l.nodes[j].key, key) ==> Search(l, key) == Some(l.nodes[j].value)
    ensures (forall j :: 0 <= j < |l.nodes| ==> !SameKey(l.nodes[j].key, key)) ==> Search(l, key) == None
  {
    SearchNodeFinds(l, key);
  }

  /** Search agrees with the plain scan of the entries for a key. */
  lemma {:induction false} SearchIsValueOf<V>(l: SkipList<V>, key: Key)
    requires Valid(l)
    ensures Search(l, key) == ValueOf(Entries(l.nodes), key)
  {
    var es := Entries(l.nodes);
    SearchFinds(l, key);
    EntriesWellFormed(l);
    if j :| 0 <= j < |l.nodes| && SameKey(l.nodes[j].key, key) {
      assert es[j].key == l.nodes[j].key;
      ValueOfAt(es, key, j);
    } else {
      assert forall j :: 0 <= j < |es| ==> es[j].key == l.nodes[j].key;
    }
  }

  /** LowerBoundNode returns the first node whose key is not less than `key`:
      every earlier key is less, and it is None only when every key is less. */
  lemma {:induction false} LowerBoundNodeFinds<V>(l: SkipList<V>, key: Key)
    requires Valid(l)
    ensures match LowerBoundNode(l, key)
      case None => forall j :: 0 <= j < |l.nodes| ==> Less(l.nodes[j].key, key)
      case Some(n) =>
        exists j :: 0 <= j < |l.nodes| && l.nodes[j] == n && !Less(n.key, key)
          && forall i :: 0 <= i < j ==> Less(l.nodes[i].key, key)
  {
    LowerBoundNodeAtRank(l, key);
    var r: int := Rank(l.nodes, key);
    if r < |l.nodes| {
      assert LowerBoundNode(l, key) == Some(l.nodes[r]);
      assert forall i :: 0 <= i < r ==> Less(l.nodes[i].key, key);
    }
  }

  /** The lower bound sits at the rank of `key`. */
  lemma {:induction false} LowerBoundNodeAtRank<V>(l: SkipList<V>, key: Key)
    requires Valid(l)
    ensures var r := Rank(l.nodes, key);
      LowerBoundNode(l, key) == (if r < |l.nodes| then Some(l.nodes[r]) else None)
  {
    LookupLands(l, key);
  }

  /** In particular a present key's own node is its lower bound. */
  lemma {:induction false} LowerBoundNodeOfPresent<V>(l: SkipList<V>, j: int)
    requires Valid(l) && 0 <= j < |l.nodes|
    ensures LowerBoundNode(l, l.nodes[j].key) == Some(l.nodes[j])
  {
    LookupLands(l, l.nodes[j].key);
    EqualKeyAtRank(l.nodes, l.nodes[j].key, j);
  }

  /** A caller ordering that agrees with `Less` on every pair of keys gives
      the same lower bound as LowerBoundNode. */
  lemma {:induction false} LowerBoundNodeFnAgrees<V>(l: SkipList<V>, key: Key, fn: (Key, Key) -> bool)
    requires Valid(l)
    requires forall a, b :: fn(a, b) == Less(a, b)
    ensures LowerBoundNodeFn(l, key, fn) == LowerBoundNode(l, key)
  {
    WalkByAgrees(l, -1, l.level - 1, key, fn);
  }

  /** First is the first node in level-0 order; IsEmpty holds exactly when
      there is none. */
  lemma {:induction false} FirstIsHead<V>(l: SkipList<V>)
    requires Valid(l)
    ensures First(l) == (if |l.nodes| == 0 then None else Some(l.nodes[0]))
    ensures IsEmpty(l) <==> First(l).None?
  {
    NextAtZero(l, -1);
    assert Link(l, -1, 0) == KeyAt(l.nodes, NextAt(Heights(l.nodes), -1, 0));
    if |l.nodes| > 0 {
      LocateAt(l.nodes, 0);
    }
  }

  /** Next and Prev of the node at position `j` are its level-0 neighbours. */
  lemma {:induction false} NeighboursOf<V>(l: SkipList<V>, j: int)
    requires Valid(l) && 0 <= j < |l.nodes|
    ensures Next(l, l.nodes[j]) == (if j + 1 < |l.nodes| then Some(l.nodes[j + 1]) else None)
    ensures Prev(l, l.nodes[j]) == (if j == 0 then None else Some(l.nodes[j - 1]))
  {
    NextAtZero(l, j);
    assert Link(l, j, 0) == KeyAt(l.nodes, NextAt(Heights(l.nodes), j, 0));
    assert l.nodes[j].backward == PrevKey(l.nodes, j);
    if j + 1 < |l.nodes| {
      LocateAt(l.nodes, j + 1);
    }
    if 0 < j {
      LocateAt(l.nodes, j - 1);
    }
  }

  /** The tail is the last node in level-0 order. */
  lemma {:induction false} TailIsLast<V>(l: SkipList<V>)
    requires Valid(l)
    ensures Deref(l, l.tail) == (if |l.nodes| == 0 then None else Some(l.nodes[|l.nodes| - 1]))
  {
    if |l.nodes| > 0 {
      LocateAt(l.nodes, |l.nodes| - 1);
    }
  }

  /** The list's level is the height of its tallest node, or 1 when no node
      is taller than 1. */
  lemma {:induction false} LevelIsTallest<V>(l: SkipList<V>)
    requires Valid(l)
    ensures forall j :: 0 <= j < |l.nodes| ==> |l.nodes[j].forward| <= l.level
    ensures l.level == 1 || exists j :: 0 <= j < |l.nodes| && |l.nodes[j].forward| == l.level
  {
    forall j | 0 <= j < |l.nodes|
      ensures |l.nodes[j].forward| <= l.level
    {
      HeightsBelowLevel(l, j);
    }
    if l.level > 1 {
      var n := NextAt(Heights(l.nodes), -1, l.level - 1);
      assert Link(l, -1, l.level - 1) == KeyAt(l.nodes, n);
      assert Heights(l.nodes)[n] == |l.nodes[n].forward|;
    }
  }
}
