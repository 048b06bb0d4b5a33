/** DeleteNode keeps the representation invariant and does what an ordered
    map delete promises: the entry with an equal key is taken away, the
    level shrinks to the tallest remaining height, and nothing else moves. */
module DeleteProof {
  import opened Options
  import opened Order
  import opened Levels
  import opened Layout
  import opened Descent
  import opened Engine
  import opened Canon

  /** `u` is an `update` array for removing the node at position `q`: on
      each level below the list's level it names the last cursor before `q`.
      The proofs about the unlink loop take any such array; UpdateDetaches
      shows the descent computes one. */
  ghost predicate Detaches<V>(l: SkipList<V>, q: int, u: seq<int>)
    requires Valid(l)
  {
    && 0 <= q < |l.nodes|
    && |u| == l.level
    && forall j :: 0 <= j < |u| ==>
      IsCursor(l, u[j]) && Reaches(l, u[j], j) && u[j] < q <= NextAt(Heights(l.nodes), u[j], j)
  }

  lemma {:induction false} UpdateDetaches<V>(l: SkipList<V>, key: Key, q: int)
    requires Valid(l) && 0 <= q < |l.nodes| && SameKey(l.nodes[q].key, key)
    ensures Detaches(l, q, Update(l, key))
  {
    var u := Update(l, key);
    var r: int := Rank(l.nodes, key);
    UpdateFinds(l, key);
    assert forall k :: 0 <= k < q ==> Less(l.nodes[k].key, l.nodes[q].key);
    assert r < |l.nodes| ==> !Less(l.nodes[r].key, key);
    forall j | 0 <= j < |u|
      ensures IsCursor(l, u[j]) && Reaches(l, u[j], j) && u[j] < q <= NextAt(Heights(l.nodes), u[j], j)
    {
      assert LastBefore(l, u[j], j, key);
    }
  }

  /** On the levels of the node at `q` the `update` array's links reference
      it; above them they do not. */
  lemma {:induction false} DetachesLink<V>(l: SkipList<V>, q: int, u: seq<int>, j: int)
    requires Valid(l) && Detaches(l, q, u) && 0 <= j < |u|
    ensures IsCursor(l, u[j]) && Reaches(l, u[j], j)
    ensures NextAt(Heights(l.nodes), u[j], j) == q <==> j < |l.nodes[q].forward|
    ensures Link(l, u[j], j) == Some(l.nodes[q].key) <==> j < |l.nodes[q].forward|
  {
    var hs := Heights(l.nodes);
    var n := NextAt(hs, u[j], j);
    assert hs[q] == |l.nodes[q].forward|;
    if j < hs[q] && q < n {
      NextAtPasses(hs, u[j], j, q);
    }
    assert Link(l, u[j], j) == KeyAt(l.nodes, n);
    assert q < n < |l.nodes| ==> Less(l.nodes[q].key, l.nodes[n].key);
  }

  /** The unlink loop stops exactly at the height of the removed node, and
      never reads its links above that height. */
  lemma {:induction false} DetachesStop<V>(l: SkipList<V>, q: int, u: seq<int>)
    requires Valid(l) && Detaches(l, q, u)
    ensures forall j :: 0 <= j < |u| && |l.nodes[q].forward| <= j ==> Link(l, u[j], j) != Some(l.nodes[q].key)
    ensures Stop(l, u, l.nodes[q].key, 0) == |l.nodes[q].forward|
  {
    var x := l.nodes[q];
    forall j | 0 <= j < |u|
      ensures Link(l, u[j], j) == Some(x.key) <==> j < |x.forward|
    {
      DetachesLink(l, q, u, j);
    }
    HeightsBelowLevel(l, q);
    StopAt(l, u, x.key, 0, |x.forward|);
  }

  /** Stop is the first level from `i` on whose link does not reference `x`. */
  lemma {:induction false} StopAt<V>(l: SkipList<V>, u: seq<int>, x: Key, i: nat, s: nat)
    requires i <= s <= |u|
    requires forall j :: i <= j < |u| ==> IsCursor(l, u[j]) && Reaches(l, u[j], j)
    requires forall j :: i <= j < s ==> Link(l, u[j], j) == Some(x)
    requires s < |u| ==> Link(l, u[s], s) != Some(x)
    ensures Stop(l, u, x, i) == s
    decreases s - i
  {
    if i < s {
      StopAt(l, u, x, i + 1, s);
    }
  }

  /** The list after the unlink loop along `u`. */
  ghost function Unlinked<V>(l: SkipList<V>, q: int, u: seq<int>): SkipList<V>
    requires Valid(l) && Detaches(l, q, u)
  {
    DetachesStop(l, q, u);
    Unlink(l, u, l.nodes[q], 0)
  }

  /** After the unlink loop a link that referenced the removed node takes
      over the removed node's link on that level; all others are as before. */
  lemma {:induction false} UnlinkedLink<V>(l: SkipList<V>, q: int, u: seq<int>, c: int, i: nat)
    requires Valid(l) && Detaches(l, q, u)
    requires IsCursor(l, c) && Reaches(l, c, i) && c != q
    ensures var hs := Heights(l.nodes);
      Link(Unlinked(l, q, u), c, i)
        == if NextAt(hs, c, i) == q then KeyAt(l.nodes, NextAt(hs, q, i)) else KeyAt(l.nodes, NextAt(hs, c, i))
  {
    var hs := Heights(l.nodes);
    var x := l.nodes[q];
    DetachesStop(l, q, u);
    assert Link(l, c, i) == KeyAt(l.nodes, NextAt(hs, c, i));
    if i < |x.forward| && u[i] == c {
      DetachesLink(l, q, u, i);
      assert Link(l, q, i) == KeyAt(l.nodes, NextAt(hs, q, i));
    } else if NextAt(hs, c, i) == q {
      HeightsBelowLevel(l, q);
      assert hs[q] == |x.forward|;
      ChainPredUnique(hs, c, u[i], i, q);
    }
  }

  /** The unlink loop changes forward links only. */
  lemma {:induction false} UnlinkedFields<V>(l: SkipList<V>, q: int, u: seq<int>, c: int)
    requires Valid(l) && Detaches(l, q, u) && 0 <= c < |l.nodes|
    ensures var n := Unlinked(l, q, u).nodes[c];
      && n.key == l.nodes[c].key && n.value == l.nodes[c].value
      && n.backward == l.nodes[c].backward && |n.forward| == |l.nodes[c].forward|
  {
    SameShapeAt(l, Unlinked(l, q, u), c);
  }

  /** The entries after taking away the one at position `q`. */
  ghost function Remaining<V>(l: SkipList<V>, q: int): seq<Entry<V>>
    requires 0 <= q < |l.nodes|
  {
    RemoveAt(Entries(l.nodes), q)
  }

  /** The link UnlinkedLink describes, read in the remaining entries: cursor
      `c` of the old arena is position `c'` of the new one. */
  lemma {:induction false} UnlinkedLinkRemaining<V>(l: SkipList<V>, q: int, u: seq<int>, c: int, i: nat)
    requires Valid(l) && Detaches(l, q, u)
    requires IsCursor(l, c) && Reaches(l, c, i) && c != q
    ensures var es' := Remaining(l, q); var c' := if c < q then c else c - 1;
      Link(Unlinked(l, q, u), c, i) == EKeyAt(es', NextAt(EHeights(es'), c', i))
  {
    var hs := Heights(l.nodes);
    UnlinkedLink(l, q, u, c, i);
    assert EHeights(Entries(l.nodes)) == hs;
    KeyAtEntries(l.nodes, NextAt(hs, c, i));
    KeyAtEntries(l.nodes, NextAt(hs, q, i));
    RemoveAtLink(Entries(l.nodes), q, c, i);
  }

  /** The unlinked list with the removed node's position dropped. */
  ghost function Dropped<V>(l: SkipList<V>, q: int, u: seq<int>): SkipList<V>
    requires Valid(l) && Detaches(l, q, u)
  {
    var l1 := Unlinked(l, q, u);
    assert |l1.nodes| == |Entries(l1.nodes)| == |l.nodes|;
    Drop(l1, q)
  }

  lemma {:induction false} DroppedHeader<V>(l: SkipList<V>, q: int, u: seq<int>)
    requires Valid(l) && Detaches(l, q, u)
    ensures Dropped(l, q, u).header == Build(Remaining(l, q)).header
  {
    var pd := Dropped(l, q, u);
    var es' := Remaining(l, q);
    assert pd.header == Unlinked(l, q, u).header;
    forall i | 0 <= i < MaxLevel
      ensures pd.header[i] == Build(es').header[i]
    {
      UnlinkedLinkRemaining(l, q, u, -1, i);
    }
    SeqExt(pd.header, Build(es').header);
  }

  /** Position `j` of the dropped arena holds the unlinked node at `c`. */
  lemma {:induction false} DroppedOld<V>(l: SkipList<V>, q: int, u: seq<int>, j: int)
    requires Valid(l) && Detaches(l, q, u) && 0 <= j < |l.nodes| - 1
    ensures var c := if j < q then j else j + 1;
      |Dropped(l, q, u).nodes| == |l.nodes| - 1
      && 0 <= c < |Unlinked(l, q, u).nodes| && Dropped(l, q, u).nodes[j] == Unlinked(l, q, u).nodes[c]
  {
    var l1 := Unlinked(l, q, u);
    assert |l1.nodes| == |Entries(l1.nodes)| == |l.nodes|;
  }

  lemma {:induction false} DroppedForward<V>(l: SkipList<V>, q: int, u: seq<int>, j: int)
    requires Valid(l) && Detaches(l, q, u) && 0 <= j < |l.nodes| - 1
    ensures var n := Dropped(l, q, u).nodes[j]; var es' := Remaining(l, q);
      forall i :: 0 <= i < |n.forward| ==> n.forward[i] == EKeyAt(es', NextAt(EHeights(es'), j, i))
  {
    var l1 := Unlinked(l, q, u);
    var es' := Remaining(l, q);
    var c := if j < q then j else j + 1;
    DroppedOld(l, q, u, j);
    var n := l1.nodes[c];
    UnlinkedFields(l, q, u, c);
    forall i | 0 <= i < |n.forward|
      ensures n.forward[i] == EKeyAt(es', NextAt(EHeights(es'), j, i))
    {
      assert n.forward[i] == Link(l1, c, i);
      UnlinkedLinkRemaining(l, q, u, c, i);
    }
  }

  lemma {:induction false} DroppedNode<V>(l: SkipList<V>, q: int, u: seq<int>, j: int)
    requires Valid(l) && Detaches(l, q, u) && 0 <= j < |l.nodes| - 1
    ensures NodeMatches(Dropped(l, q, u).nodes[j], Remaining(l, q), j)
  {
    var es' := Remaining(l, q);
    var c := if j < q then j else j + 1;
    DroppedOld(l, q, u, j);
    UnlinkedFields(l, q, u, c);
    DroppedForward(l, q, u, j);
    RemainingEntry(l, q, j);
    NodeMatchesOld(Dropped(l, q, u).nodes[j], l.nodes[c], es', j);
  }

  /** Position `j` of the remaining entries is the old entry at `c`. */
  lemma {:induction false} RemainingEntry<V>(l: SkipList<V>, q: int, j: int)
    requires 0 <= q < |l.nodes| && 0 <= j < |l.nodes| - 1
    ensures var c := if j < q then j else j + 1; var n := l.nodes[c];
      Remaining(l, q)[j] == Entry(n.key, n.value, |n.forward|)
  {
    var c := if j < q then j else j + 1;
    assert Remaining(l, q)[j] == Entries(l.nodes)[c];
  }

  /** A node with the key, value and height of the old node `o`, whose links
      are the canonical ones at `j`, matches the entries at `j`. */
  lemma {:induction false} NodeMatchesOld<V>(n: Node<V>, o: Node<V>, es: seq<Entry<V>>, j: int)
    requires 0 <= j < |es| && es[j] == Entry(o.key, o.value, |o.forward|)
    requires n.key == o.key && n.value == o.value && |n.forward| == |o.forward|
    requires forall i :: 0 <= i < |n.forward| ==> n.forward[i] == EKeyAt(es, NextAt(EHeights(es), j, i))
    ensures NodeMatches(n, es, j)
  {
  }

  /** Away from the removed node's successor, the old backward links are the
      predecessors in the remaining entries. */
  lemma {:induction false} RemainingBack<V>(l: SkipList<V>, q: int, j: int)
    requires Valid(l) && 0 <= q < |l.nodes| && 0 <= j < |l.nodes| - 1 && j != q
    ensures var c := if j < q then j else j + 1;
      l.nodes[c].backward == EPrevKey(Remaining(l, q), j)
  {
    var es' := Remaining(l, q);
    var c := if j < q then j else j + 1;
    assert l.nodes[c].backward == PrevKey(l.nodes, c);
    assert j > 0 ==> es'[j - 1] == Entries(l.nodes)[c - 1];
  }

  lemma {:induction false} DroppedBack<V>(l: SkipList<V>, q: int, u: seq<int>, j: int)
    requires Valid(l) && Detaches(l, q, u) && 0 <= j < |l.nodes| - 1 && j != q
    ensures Dropped(l, q, u).nodes[j].backward == EPrevKey(Remaining(l, q), j)
  {
    var c := if j < q then j else j + 1;
    DroppedOld(l, q, u, j);
    UnlinkedFields(l, q, u, c);
    RemainingBack(l, q, j);
  }

  /** The tail stays unless the removed node was the last one. */
  lemma {:induction false} DroppedTail<V>(l: SkipList<V>, q: int, u: seq<int>)
    requires Valid(l) && Detaches(l, q, u)
    ensures var pd := Dropped(l, q, u); var es' := Remaining(l, q);
      && |pd.nodes| == |es'|
      && (q < |es'| ==> pd.tail == EPrevKey(es', |es'|))
  {
    var es' := Remaining(l, q);
    var l1 := Unlinked(l, q, u);
    assert |l1.nodes| == |Entries(l1.nodes)| == |l.nodes|;
    if q < |es'| {
      assert es'[|es'| - 1] == Entries(l.nodes)[|l.nodes| - 1];
    }
  }

  /** The removed node's links, read in the remaining entries. */
  lemma {:induction false} RemovedLinks<V>(l: SkipList<V>, q: int)
    requires Valid(l) && 0 <= q < |l.nodes|
    ensures var x := l.nodes[q]; var es' := Remaining(l, q);
      0 < |x.forward| && x.forward[0] == EKeyAt(es', q) && x.backward == EPrevKey(es', q)
  {
    var es := Entries(l.nodes);
    var es' := Remaining(l, q);
    NextAtZero(l, q);
    assert Link(l, q, 0) == KeyAt(l.nodes, NextAt(Heights(l.nodes), q, 0));
    KeyAtEntries(l.nodes, q + 1);
    RemoveAtKeyAt(es, q, q + 1);
    assert l.nodes[q].backward == PrevKey(l.nodes, q);
    if q > 0 {
      assert es'[q - 1] == es[q - 1];
    }
  }

  /** The backward-link repair of DeleteNode, applied to a list that is
      canonical except for the backward link at `q` (the removed node's
      successor) and the tail when the removed node was last, completes the
      canonical list. */
  lemma {:induction false} RepairAfterRemoveBuild<V>(p: SkipList<V>, es: seq<Entry<V>>, q: int, x: Node<V>)
    requires WellFormed(es) && 0 <= q <= |es|
    requires p.header == Build(es).header
    requires |p.nodes| == |es| && forall j {:trigger p.nodes[j]} :: 0 <= j < |es| ==> NodeMatches(p.nodes[j], es, j)
    requires forall j :: 0 <= j < |es| && j != q ==> p.nodes[j].backward == EPrevKey(es, j)
    requires q < |es| ==> p.tail == EPrevKey(es, |es|)
    requires 0 < |x.forward| && x.forward[0] == EKeyAt(es, q) && x.backward == EPrevKey(es, q)
    ensures var p' := RepairAfterRemove(p, x);
      p'.header == Build(es).header && p'.nodes == Build(es).nodes && p'.tail == EPrevKey(es, |es|)
  {
    var b := Build(es);
    var p' := RepairAfterRemove(p, x);
    if q < |es| {
      forall j, k | 0 <= j < k < |p.nodes|
        ensures Less(p.nodes[j].key, p.nodes[k].key)
      {
        assert p.nodes[j].key == es[j].key && p.nodes[k].key == es[k].key;
      }
      assert NodeMatches(p.nodes[q], es, q);
      LocateAt(p.nodes, q);
      assert p' == p.(nodes := p.nodes[q := p.nodes[q].(backward := x.backward)]);
    } else {
      assert p' == p.(tail := x.backward);
    }
    forall j | 0 <= j < |es|
      ensures p'.nodes[j] == b.nodes[j]
    {
      NodeMatchesBuild(p'.nodes[j], es, j);
    }
    SeqExt(p'.nodes, b.nodes);
  }

  /** The level-shrinking loop, run on a canonical header from a level at
      least every height, stops at the tallest height (or 1). */
  lemma {:induction false} ShrinkTop<V>(es: seq<Entry<V>>, lev: int)
    requires 1 <= lev <= MaxLevel
    requires forall j :: 0 <= j < |es| ==> es[j].height <= lev
    ensures Shrink(Build(es).header, lev) == TopLevel(es)
  {
    var b := Build(es);
    var hs := EHeights(es);
    var t := Shrink(b.header, lev);
    forall j | 0 <= j < |es|
      ensures es[j].height <= t
    {
      if es[j].height > t {
        HeaderReaches(es, t, j);
        assert false;
      }
    }
    if t > 1 {
      var n := NextAt(hs, -1, t - 1);
      assert b.header[t - 1] == EKeyAt(es, n);
      assert es[n].height == t;
    }
    TopLevelUnique(es, t);
  }

  /** The header's level-i chain is not empty when some entry is taller than `i`. */
  lemma {:induction false} HeaderReaches<V>(es: seq<Entry<V>>, i: nat, j: int)
    requires 0 <= j < |es| && i < es[j].height && i < MaxLevel
    ensures Build(es).header[i].Some?
  {
    var hs := EHeights(es);
    NextAtAtMost(hs, -1, i, j);
    assert Build(es).header[i] == EKeyAt(es, NextAt(hs, -1, i));
  }

  /** For a present key DeleteNode unlinks the node at `q` along the
      `update` array, drops it from the arena, repairs the backward link,
      shrinks the level and counts one node less. */
  lemma {:induction false} DeleteNodeUnfold<V>(l: SkipList<V>, key: Key, q: int)
    requires Valid(l) && 0 <= q < |l.nodes| && SameKey(l.nodes[q].key, key)
    ensures var u := Update(l, key);
      && Detaches(l, q, u)
      && 0 < |l.nodes[q].forward|
      && var l3 := RepairAfterRemove(Dropped(l, q, u), l.nodes[q]);
        DeleteNode(l, key) == (l3.(level := Shrink(l3.header, l3.level), length := l3.length - 1), Some(l.nodes[q]))
  {
    UpdateDetaches(l, key, q);
    DeleteTarget(l, key, q);
  }

  /** The descent followed by one level-0 step lands on the node at `q`. */
  lemma {:induction false} DeleteTarget<V>(l: SkipList<V>, key: Key, q: int)
    requires Valid(l) && 0 <= q < |l.nodes| && SameKey(l.nodes[q].key, key)
    ensures Target(l, Link(l, Update(l, key)[0], 0)) == q
  {
    var u := Update(l, key);
    UpdateDetaches(l, key, q);
    NextAtZero(l, u[0]);
    assert Link(l, u[0], 0) == KeyAt(l.nodes, NextAt(Heights(l.nodes), u[0], 0));
    LocateAt(l.nodes, q);
  }

  /** The dropped list, with any detaching `update` array, is the canonical
      list of the remaining entries, apart from level and length, once the
      backward link is repaired. */
  lemma {:induction false} DroppedCanonical<V>(l: SkipList<V>, q: int, u: seq<int>)
    requires Valid(l) && Detaches(l, q, u)
    ensures 0 < |l.nodes[q].forward|
      && var l3 := RepairAfterRemove(Dropped(l, q, u), l.nodes[q]); var es' := Remaining(l, q);
        l3.header == Build(es').header && l3.nodes == Build(es').nodes && l3.tail == EPrevKey(es', |es'|)
        && l3.level == l.level && l3.length == l.length
  {
    var pd := Dropped(l, q, u);
    var es := Entries(l.nodes);
    var es' := Remaining(l, q);
    EntriesWellFormed(l);
    RemoveAtWellFormed(es, q);
    DroppedHeader(l, q, u);
    DroppedTail(l, q, u);
    RemovedLinks(l, q);
    forall j | 0 <= j < |es'|
      ensures NodeMatches(pd.nodes[j], es', j)
      ensures j != q ==> pd.nodes[j].backward == EPrevKey(es', j)
    {
      DroppedNode(l, q, u, j);
      if j != q {
        DroppedBack(l, q, u, j);
      }
    }
    RepairAfterRemoveBuild(pd, es', q, l.nodes[q]);
  }

  /** No remaining entry is taller than the list's level. */
  lemma {:induction false} RemainingBelowLevel<V>(l: SkipList<V>, q: int)
    requires Valid(l) && 0 <= q < |l.nodes|
    ensures forall j :: 0 <= j < |Remaining(l, q)| ==> Remaining(l, q)[j].height <= l.level
  {
    var es := Entries(l.nodes);
    var es' := Remaining(l, q);
    forall j | 0 <= j < |es'|
      ensures es'[j].height <= l.level
    {
      var c := if j < q then j else j + 1;
      assert es'[j] == es[c];
      HeightsBelowLevel(l, c);
    }
  }

  /** ... and once the level is shrunk and the length decremented it is
      exactly the canonical list. */
  lemma {:induction false} DroppedRepaired<V>(l: SkipList<V>, q: int, u: seq<int>)
    requires Valid(l) && Detaches(l, q, u)
    ensures 0 < |l.nodes[q].forward|
      && var l3 := RepairAfterRemove(Dropped(l, q, u), l.nodes[q]);
        l3.(level := Shrink(l3.header, l3.level), length := l3.length - 1) == Build(Remaining(l, q))
  {
    var es' := Remaining(l, q);
    DroppedCanonical(l, q, u);
    var l3 := RepairAfterRemove(Dropped(l, q, u), l.nodes[q]);
    RemainingBelowLevel(l, q);
    ShrinkTop(es', l.level);
    BuildExt(l3.(level := Shrink(l3.header, l3.level), length := l3.length - 1), es');
  }

  /** Deleting a key present at position `q` returns that node and yields
      exactly the canonical list of the entries without it. */
  lemma {:induction false} DeletePresent<V>(l: SkipList<V>, key: Key, q: int)
    requires Valid(l) && 0 <= q < |l.nodes| && SameKey(l.nodes[q].key, key)
    ensures DeleteNode(l, key) == (Build(RemoveAt(Entries(l.nodes), q)), Some(l.nodes[q]))
  {
    DeleteNodeUnfold(l, key, q);
    DroppedRepaired(l, q, Update(l, key));
  }
}
