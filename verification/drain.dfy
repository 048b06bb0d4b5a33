/** Emptying a list one node at a time, walking the level-0 chain from the
    front or from the tail and following the deleted node's own links, as
    the package's TestDeleteAllNode does (skiplist/skiplist_test.go, lines
    251-282). A deleted node keeps its links, so its successor or
    predecessor can still be reached from it. */
module Drain {
  import opened Options
  import opened Order
  import opened Layout
  import opened Engine
  import opened Canon
  import opened Queries
  import opened DeleteFacts

  /** Once the first entry is taken away, the remaining keys move one place
      to the front and the old first node's level-0 link leads to the new
      first node. */
  lemma {:induction false} FirstRemoved<V>(l: SkipList<V>, l': SkipList<V>)
    requires Valid(l) && Valid(l') && 0 < |l.nodes|
    requires Entries(l'.nodes) == RemoveAt(Entries(l.nodes), 0)
    ensures |l'.nodes| == |l.nodes| - 1
    ensures forall j :: 0 <= j < |l'.nodes| ==> l'.nodes[j].key == l.nodes[j + 1].key
    ensures 0 < |l.nodes[0].forward|
    ensures Next(l', l.nodes[0]) == if |l'.nodes| == 0 then None else Some(l'.nodes[0])
  {
    RemovedKeys(l.nodes, 0, l'.nodes);
    NeighboursOf(l, 0);
    if 0 < |l'.nodes| {
      LocateAt(l'.nodes, 0);
    }
  }

  /** Once the last entry is taken away, the other keys stay in place and
      the old last node's backward link leads to the new last node. */
  lemma {:induction false} LastRemoved<V>(l: SkipList<V>, n: int, l': SkipList<V>)
    requires Valid(l) && Valid(l') && n == |l.nodes| - 1 && 0 <= n
    requires Entries(l'.nodes) == RemoveAt(Entries(l.nodes), n)
    ensures |l'.nodes| == n
    ensures forall j :: 0 <= j < n ==> l'.nodes[j].key == l.nodes[j].key
    ensures Prev(l', l.nodes[n]) == if n == 0 then None else Some(l'.nodes[n - 1])
  {
    RemovedKeys(l.nodes, n, l'.nodes);
    NeighboursOf(l, n);
    if 0 < n {
      LocateAt(l'.nodes, n - 1);
    }
  }

  /** Nodes whose entries are those of `nodes` without position `q` hold the
      other keys in the same order. */
  lemma {:induction false} RemovedKeys<V>(nodes: seq<Node<V>>, q: int, nodes': seq<Node<V>>)
    requires 0 <= q < |nodes| && Entries(nodes') == RemoveAt(Entries(nodes), q)
    ensures |nodes'| == |nodes| - 1
    ensures forall j :: 0 <= j < q ==> nodes'[j].key == nodes[j].key
    ensures forall j :: q <= j < |nodes'| ==> nodes'[j].key == nodes[j + 1].key
  {
    var es := Entries(nodes);
    assert |Entries(nodes')| == |nodes'|;
    forall j | 0 <= j < |nodes'|
      ensures nodes'[j].key == nodes[if j < q then j else j + 1].key
    {
      assert Entries(nodes')[j] == RemoveAt(es, q)[j] == es[if j < q then j else j + 1];
    }
  }

  /** An empty valid list has level 1, no first node and no tail, and
      deleting from it finds nothing. */
  lemma {:induction false} EmptyIsReset<V>(l: SkipList<V>)
    requires Valid(l) && |l.nodes| == 0
    ensures l.length == 0 && l.level == 1 && l.tail == None && First(l) == None
    ensures forall k :: DeleteNode(l, k) == (l, None)
  {
    LevelIsTop(l);
    FirstIsHead(l);
    forall k
      ensures DeleteNode(l, k) == (l, None)
    {
      DeleteAbsentFacts(l, k);
    }
  }

  /** One round of the forward loop: delete the first node `x`, then step
      along the deleted node's own level-0 link. */
  method DeleteAndStepForward<V>(l: SkipList<V>, x: Node<V>) returns (l': SkipList<V>, next: Option<Node<V>>)
    requires Valid(l) && 0 < |l.nodes| && x == l.nodes[0]
    ensures Valid(l') && |l'.nodes| == |l.nodes| - 1
    ensures forall j :: 0 <= j < |l'.nodes| ==> l'.nodes[j].key == l.nodes[j + 1].key
    ensures next == if |l'.nodes| == 0 then None else Some(l'.nodes[0])
  {
    var r := DeleteNode(l, x.key);
    DeletePresentFacts(l, x.key, 0);
    l' := r.0;
    FirstRemoved(l, l');
    next := Next(l', x);
  }

  /** One round of the backward loop: delete the last node `x`, then step
      along the deleted node's own backward link. */
  method DeleteAndStepBackward<V>(l: SkipList<V>, x: Node<V>) returns (l': SkipList<V>, prev: Option<Node<V>>)
    requires Valid(l) && 0 < |l.nodes| && x == l.nodes[|l.nodes| - 1]
    ensures Valid(l') && |l'.nodes| == |l.nodes| - 1
    ensures forall j :: 0 <= j < |l'.nodes| ==> l'.nodes[j].key == l.nodes[j].key
    ensures prev == if |l'.nodes| == 0 then None else Some(l'.nodes[|l'.nodes| - 1])
  {
    var r := DeleteNode(l, x.key);
    DeletePresentFacts(l, x.key, |l.nodes| - 1);
    l' := r.0;
    LastRemoved(l, |l.nodes| - 1, l');
    prev := Prev(l', x);
  }

  /** The bookkeeping of the forward loop: the first key of `a` moves to the
      end of `removed` when `b` is `a` without its first node. */
  lemma {:induction false} FrontShift<V>(all: seq<Node<V>>, removed: seq<Key>, a: seq<Node<V>>, b: seq<Node<V>>, removed': seq<Key>)
    requires |removed| + |a| == |all| && 0 < |a| && |b| == |a| - 1 && removed' == removed + [a[0].key]
    requires forall j :: 0 <= j < |removed| ==> removed[j] == all[j].key
    requires forall j :: |removed| <= j < |all| ==> all[j].key == a[j - |removed|].key
    requires forall j :: 0 <= j < |b| ==> b[j].key == a[j + 1].key
    ensures |removed'| + |b| == |all|
    ensures forall j :: 0 <= j < |removed'| ==> removed'[j] == all[j].key
    ensures forall j :: |removed'| <= j < |all| ==> all[j].key == b[j - |removed'|].key
  {
  }

  /** The loop of DeleteAllForward, from the node `x` the walk starts at. */
  method DrainFront<V>(l0: SkipList<V>, x0: Option<Node<V>>) returns (l: SkipList<V>, removed: seq<Key>)
    requires Valid(l0) && x0 == if |l0.nodes| == 0 then None else Some(l0.nodes[0])
    ensures Valid(l) && |l.nodes| == 0
    ensures |removed| == |l0.nodes|
    ensures forall j :: 0 <= j < |removed| ==> removed[j] == l0.nodes[j].key
  {
    l, removed := l0, [];
    var x := x0;
    while x.Some?
      invariant Valid(l)
      invariant x == if |l.nodes| == 0 then None else Some(l.nodes[0])
      invariant |removed| + |l.nodes| == |l0.nodes|
      invariant forall j :: 0 <= j < |removed| ==> removed[j] == l0.nodes[j].key
      invariant forall j :: |removed| <= j < |l0.nodes| ==> l0.nodes[j].key == l.nodes[j - |removed|].key
      decreases |l.nodes|
    {
      var n := x.value;
      var l', x' := DeleteAndStepForward(l, n);
      var removed' := removed + [n.key];
      FrontShift(l0.nodes, removed, l.nodes, l'.nodes, removed');
      l, x, removed := l', x', removed';
    }
  }

  /** Deletes every node, front to back, starting at the header's level-0
      link and stepping to the deleted node's level-0 successor; `removed`
      lists the keys in the order deleted. */
  method DeleteAllForward<V>(l0: SkipList<V>) returns (l: SkipList<V>, removed: seq<Key>)
    requires Valid(l0)
    ensures Valid(l) && l.length == 0 && l.level == 1 && l.tail == None && First(l) == None
    ensures DeleteNode(l, 0) == (l, None)
    ensures |removed| == |l0.nodes|
    ensures forall j :: 0 <= j < |removed| ==> removed[j] == l0.nodes[j].key
  {
    FirstIsHead(l0);
    l, removed := DrainFront(l0, First(l0));
    EmptyIsReset(l);
  }

  /** Deletes every node, back to front, starting at the tail and stepping
      to the deleted node's backward link; `removed` lists the keys in the
      order deleted. */
  method DeleteAllBackward<V>(l0: SkipList<V>) returns (l: SkipList<V>, removed: seq<Key>)
    requires Valid(l0)
    ensures Valid(l) && l.length == 0 && l.level == 1 && l.tail == None && First(l) == None
    ensures DeleteNode(l, 0) == (l, None)
    ensures |removed| == |l0.nodes|
    ensures forall j :: 0 <= j < |removed| ==> removed[j] == l0.nodes[|l0.nodes| - 1 - j].key
  {
    l, removed := l0, [];
    TailIsLast(l);
    var x := Deref(l, l.tail);
    while x.Some?
      invariant Valid(l)
      invariant x == if |l.nodes| == 0 then None else Some(l.nodes[|l.nodes| - 1])
      invariant |removed| + |l.nodes| == |l0.nodes|
      invariant forall j :: 0 <= j < |removed| ==> removed[j] == l0.nodes[|l0.nodes| - 1 - j].key
      invariant forall j :: 0 <= j < |l.nodes| ==> l.nodes[j].key == l0.nodes[j].key
      decreases |l.nodes|
    {
      var n := x.value;
      l, x := DeleteAndStepBackward(l, n);
      removed := removed + [n.key];
    }
    EmptyIsReset(l);
  }
}
