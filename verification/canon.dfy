/** The canonical skip list of a sorted entry sequence: every link is the
    next node on its level, every backward link the level-0 predecessor,
    the tail the last node and the level the tallest height (or 1). A valid
    list is exactly the canonical list of its own entries, so an operation
    is specified completely by the entry sequence it produces. */
module Canon {
  import opened Options
  import opened Order
  import opened Levels
  import opened Layout

  function EHeights<V>(es: seq<Entry<V>>): seq<nat> {
    seq(|es|, j requires 0 <= j < |es| => es[j].height)
  }

  function EKeyAt<V>(es: seq<Entry<V>>, p: int): Option<Key> {
    if 0 <= p < |es| then Some(es[p].key) else None
  }

  function EPrevKey<V>(es: seq<Entry<V>>, j: int): Option<Key> {
    if 0 < j <= |es| then Some(es[j - 1].key) else None
  }

  /** Keys strictly ascending and heights within [1, MaxLevel]. */
  ghost predicate WellFormed<V>(es: seq<Entry<V>>) {
    && (forall j, k {:trigger Less(es[j].key, es[k].key)} :: 0 <= j < k < |es| ==> Less(es[j].key, es[k].key))
    && (forall j :: 0 <= j < |es| ==> 1 <= es[j].height <= MaxLevel)
  }

  /** The tallest height of the entries, or 1. */
  function TopLevel<V>(es: seq<Entry<V>>): (t: int)
    ensures 1 <= t
    ensures forall j :: 0 <= j < |es| ==> es[j].height <= t
    ensures t == 1 || exists j :: 0 <= j < |es| && es[j].height == t
  {
    TopLevelOf(es, |es|)
  }

  /** The tallest height among the first `n` entries, or 1. */
  function TopLevelOf<V>(es: seq<Entry<V>>, n: nat): (t: int)
    requires n <= |es|
    ensures 1 <= t
    ensures forall j :: 0 <= j < n ==> es[j].height <= t
    ensures t == 1 || exists j :: 0 <= j < n && es[j].height == t
  {
    if n == 0 then 1
    else
      var t := TopLevelOf(es, n - 1);
      if es[n - 1].height > t then es[n - 1].height else t
  }

  /** The canonical list of the entries `es`. */
  function Build<V>(es: seq<Entry<V>>): (l: SkipList<V>)
    ensures |l.header| == MaxLevel && |l.nodes| == |es|
  {
    var hs := EHeights(es);
    SkipList(
      seq(MaxLevel, i requires 0 <= i < MaxLevel => EKeyAt(es, NextAt(hs, -1, i))),
      seq(|es|, j requires 0 <= j < |es| =>
        Node(es[j].key, es[j].value, EPrevKey(es, j),
          seq(es[j].height, i requires 0 <= i < es[j].height => EKeyAt(es, NextAt(hs, j, i))))),
      EPrevKey(es, |es|),
      |es|,
      TopLevel(es))
  }

  /** The canonical list's heights and entries are those of `es`. */
  lemma {:induction false} BuildEntries<V>(es: seq<Entry<V>>)
    ensures Heights(Build(es).nodes) == EHeights(es)
    ensures Entries(Build(es).nodes) == es
  {
  }

  lemma {:induction false} BuildSorted<V>(es: seq<Entry<V>>)
    requires WellFormed(es)
    ensures Sorted(Build(es).nodes) && HeightsOk(Build(es))
  {
    var l := Build(es);
    forall j, k | 0 <= j < k < |l.nodes|
      ensures Less(l.nodes[j].key, l.nodes[k].key)
    {
      assert Less(es[j].key, es[k].key);
    }
  }

  lemma {:induction false} BuildLinks<V>(es: seq<Entry<V>>)
    ensures LinksOk(Build(es)) && BackOk(Build(es)) && TailOk(Build(es))
  {
    var l := Build(es);
    BuildEntries(es);
    forall c, i: nat {:trigger Link(l, c, i)} | IsCursor(l, c) && Reaches(l, c, i)
      ensures Link(l, c, i) == KeyAt(l.nodes, NextAt(Heights(l.nodes), c, i))
    {
    }
  }

  lemma {:induction false} BuildLevel<V>(es: seq<Entry<V>>)
    requires WellFormed(es)
    ensures LevelOk(Build(es))
  {
    var l := Build(es);
    var hs := EHeights(es);
    var t := TopLevel(es);
    forall i | t <= i < MaxLevel
      ensures l.header[i] == None
    {
      forall q | -1 < q < |hs|
        ensures hs[q] <= i
      {
      }
      NextAtUnique(hs, -1, i, |hs|);
    }
    if t > 1 {
      var j :| 0 <= j < |es| && es[j].height == t;
      if NextAt(hs, -1, t - 1) > j {
        NextAtPasses(hs, -1, t - 1, j);
      }
    }
  }

  /** The canonical list of well-formed entries is valid and holds exactly
      those entries. */
  lemma {:induction false} BuildValid<V>(es: seq<Entry<V>>)
    requires WellFormed(es)
    ensures Valid(Build(es))
    ensures Entries(Build(es).nodes) == es
  {
    BuildEntries(es);
    BuildSorted(es);
    BuildLinks(es);
    BuildLevel(es);
  }

  /** The level of a valid list is the TopLevel of its entries. */
  lemma {:induction false} LevelIsTop<V>(l: SkipList<V>)
    requires Valid(l)
    ensures l.level == TopLevel(Entries(l.nodes))
  {
    var es := Entries(l.nodes);
    var t := TopLevel(es);
    forall j | 0 <= j < |l.nodes|
      ensures es[j].height <= l.level
    {
      HeightsBelowLevel(l, j);
    }
    if l.level > 1 {
      var n := NextAt(Heights(l.nodes), -1, l.level - 1);
      assert Link(l, -1, l.level - 1) == KeyAt(l.nodes, n);
      assert es[n].height == Heights(l.nodes)[n];
    }
  }

  lemma {:induction false} ValidHeaderIsBuild<V>(l: SkipList<V>)
    requires Valid(l)
    ensures l.header == Build(Entries(l.nodes)).header
  {
    var es := Entries(l.nodes);
    var hs := Heights(l.nodes);
    assert EHeights(es) == hs;
    forall i | 0 <= i < MaxLevel
      ensures l.header[i] == Build(es).header[i]
    {
      assert Link(l, -1, i) == KeyAt(l.nodes, NextAt(hs, -1, i));
    }
  }

  lemma {:induction false} ValidNodeIsBuild<V>(l: SkipList<V>, j: int)
    requires Valid(l) && 0 <= j < |l.nodes|
    ensures l.nodes[j] == Build(Entries(l.nodes)).nodes[j]
  {
    var es := Entries(l.nodes);
    var hs := Heights(l.nodes);
    var n := Build(es).nodes[j];
    assert EHeights(es) == hs;
    assert l.nodes[j].backward == PrevKey(l.nodes, j);
    forall i | 0 <= i < |l.nodes[j].forward|
      ensures l.nodes[j].forward[i] == n.forward[i]
    {
      assert Link(l, j, i) == KeyAt(l.nodes, NextAt(hs, j, i));
    }
  }

  lemma {:induction false} EntriesWellFormed<V>(l: SkipList<V>)
    requires Valid(l)
    ensures WellFormed(Entries(l.nodes))
  {
    var es := Entries(l.nodes);
    forall j, k | 0 <= j < k < |es|
      ensures Less(es[j].key, es[k].key)
    {
      assert Less(l.nodes[j].key, l.nodes[k].key);
    }
  }

  /** A valid list is the canonical list of its own entries, which are
      well-formed: the representation is determined by the contents. */
  lemma {:induction false} ValidIsBuild<V>(l: SkipList<V>)
    requires Valid(l)
    ensures WellFormed(Entries(l.nodes))
    ensures l == Build(Entries(l.nodes))
  {
    var es := Entries(l.nodes);
    EntriesWellFormed(l);
    ValidHeaderIsBuild(l);
    ValidNodesAreBuild(l);
    LevelIsTop(l);
    if |es| > 0 {
      assert es[|es| - 1].key == l.nodes[|l.nodes| - 1].key;
    }
    BuildExt(l, es);
  }

  lemma {:induction false} ValidNodesAreBuild<V>(l: SkipList<V>)
    requires Valid(l)
    ensures l.nodes == Build(Entries(l.nodes)).nodes
  {
    var b := Build(Entries(l.nodes));
    forall j | 0 <= j < |l.nodes|
      ensures l.nodes[j] == b.nodes[j]
    {
      ValidNodeIsBuild(l, j);
    }
    SeqExt(l.nodes, b.nodes);
  }

  /** Everything of a node except its backward link is as in the canonical
      list at position `j`. */
  ghost predicate NodeMatches<V>(n: Node<V>, es: seq<Entry<V>>, j: int) {
    && 0 <= j < |es|
    && n.key == es[j].key && n.value == es[j].value
    && |n.forward| == es[j].height
    && forall i :: 0 <= i < |n.forward| ==> n.forward[i] == EKeyAt(es, NextAt(EHeights(es), j, i))
  }

  lemma {:induction false} NodeMatchesBuild<V>(n: Node<V>, es: seq<Entry<V>>, j: int)
    requires NodeMatches(n, es, j) && n.backward == EPrevKey(es, j)
    ensures n == Build(es).nodes[j]
  {
  }

  /** A list that agrees with the canonical list field by field is it. */
  lemma {:induction false} BuildExt<V>(p: SkipList<V>, es: seq<Entry<V>>)
    requires p.header == Build(es).header
    requires p.nodes == Build(es).nodes
    requires p.tail == EPrevKey(es, |es|) && p.length == |es| && p.level == TopLevel(es)
    ensures p == Build(es)
  {
    var b := Build(es);
    assert p.header == b.header;
    assert p.nodes == b.nodes;
    assert p.tail == b.tail;
    assert p.length == b.length;
    assert p.level == b.level;
  }

  lemma {:induction false} SeqExt<T>(a: seq<T>, b: seq<T>)
    requires |a| == |b| && forall j :: 0 <= j < |a| ==> a[j] == b[j]
    ensures a == b
  {
  }

  /** TopLevel is the least level that is at least 1 and every height, and
      it is 1 or a height. */
  lemma {:induction false} TopLevelUnique<V>(es: seq<Entry<V>>, t: int)
    requires 1 <= t
    requires forall j :: 0 <= j < |es| ==> es[j].height <= t
    requires t == 1 || exists j :: 0 <= j < |es| && es[j].height == t
    ensures t == TopLevel(es)
  {
  }

  // ---------------------------------------------------------------------
  // Entry sequences with one entry added or taken away.

  function InsertAt<V>(es: seq<Entry<V>>, r: int, e: Entry<V>): (es': seq<Entry<V>>)
    requires 0 <= r <= |es|
    ensures |es'| == |es| + 1
  {
    es[..r] + [e] + es[r..]
  }

  function RemoveAt<V>(es: seq<Entry<V>>, q: int): (es': seq<Entry<V>>)
    requires 0 <= q < |es|
    ensures |es'| == |es| - 1
  {
    es[..q] + es[q + 1..]
  }

  /** Adding an entry whose key falls strictly between its neighbours keeps
      the entries well-formed. */
  lemma {:induction false} InsertAtWellFormed<V>(es: seq<Entry<V>>, r: int, e: Entry<V>)
    requires WellFormed(es) && 0 <= r <= |es| && 1 <= e.height <= MaxLevel
    requires forall j :: 0 <= j < r ==> Less(es[j].key, e.key)
    requires forall j :: r <= j < |es| ==> Less(e.key, es[j].key)
    ensures WellFormed(InsertAt(es, r, e))
  {
    var es' := InsertAt(es, r, e);
    assert forall j {:trigger es'[j]} :: 0 <= j < r ==> es'[j] == es[j];
    assert es'[r] == e;
    assert forall j {:trigger es'[j]} :: r < j < |es'| ==> es'[j] == es[j - 1];
    forall j, k | 0 <= j < k < |es'|
      ensures Less(es'[j].key, es'[k].key)
    {
      if k < r {
        assert Less(es[j].key, es[k].key);
      } else if r < j {
        assert Less(es[j - 1].key, es[k - 1].key);
      } else if j < r && r < k {
        assert Less(es[j].key, es[k - 1].key);
      }
    }
  }

  /** Taking an entry away keeps the entries well-formed. */
  lemma {:induction false} RemoveAtWellFormed<V>(es: seq<Entry<V>>, q: int)
    requires WellFormed(es) && 0 <= q < |es|
    ensures WellFormed(RemoveAt(es, q))
    ensures EHeights(RemoveAt(es, q)) == EHeights(es)[..q] + EHeights(es)[q + 1..]
  {
    var es' := RemoveAt(es, q);
    assert forall j {:trigger es'[j]} :: 0 <= j < q ==> es'[j] == es[j];
    assert forall j {:trigger es'[j]} :: q <= j < |es'| ==> es'[j] == es[j + 1];
    forall j, k | 0 <= j < k < |es'|
      ensures Less(es'[j].key, es'[k].key)
    {
      if k < q {
        assert Less(es[j].key, es[k].key);
      } else if q <= j {
        assert Less(es[j + 1].key, es[k + 1].key);
      } else {
        assert Less(es[j].key, es[k + 1].key);
      }
    }
  }

  /** Positions at and after `r` move up by one when an entry is added at `r`. */
  lemma {:induction false} InsertAtKeyAt<V>(es: seq<Entry<V>>, r: int, e: Entry<V>, n: int)
    requires 0 <= r <= |es| && -1 <= n <= |es|
    ensures EKeyAt(InsertAt(es, r, e), if n < r then n else n + 1) == EKeyAt(es, n)
    ensures EKeyAt(InsertAt(es, r, e), r) == Some(e.key)
  {
    var es' := InsertAt(es, r, e);
    if 0 <= n < r {
      assert es'[n] == es[n];
    } else if r <= n < |es| {
      assert es'[n + 1] == es[n];
    }
  }

  /** Adding an entry raises TopLevel to the entry's height when it is taller. */
  lemma {:induction false} TopLevelInsertAt<V>(es: seq<Entry<V>>, r: int, e: Entry<V>)
    requires 0 <= r <= |es|
    ensures TopLevel(InsertAt(es, r, e)) == if e.height > TopLevel(es) then e.height else TopLevel(es)
  {
    var es' := InsertAt(es, r, e);
    var t := if e.height > TopLevel(es) then e.height else TopLevel(es);
    assert es'[r] == e;
    forall j | 0 <= j < |es'|
      ensures es'[j].height <= t
    {
      if j < r {
        assert es'[j] == es[j];
      } else if r < j {
        assert es'[j] == es[j - 1];
      }
    }
    if t > 1 && t != e.height {
      var k :| 0 <= k < |es| && es[k].height == t;
      if k < r {
        assert es'[k] == es[k];
      } else {
        assert es'[k + 1] == es[k];
      }
    }
    TopLevelUnique(es', t);
  }

  lemma {:induction false} KeyAtEntries<V>(nodes: seq<Node<V>>, n: int)
    ensures KeyAt(nodes, n) == EKeyAt(Entries(nodes), n)
  {
  }

  lemma {:induction false} EHeightsInsertAt<V>(es: seq<Entry<V>>, r: int, e: Entry<V>)
    requires 0 <= r <= |es|
    ensures EHeights(InsertAt(es, r, e)) == EHeights(es)[..r] + [e.height] + EHeights(es)[r..]
  {
    var es' := InsertAt(es, r, e);
    assert forall j {:trigger es'[j]} :: 0 <= j < r ==> es'[j] == es[j];
    assert forall j {:trigger es'[j]} :: r < j < |es'| ==> es'[j] == es[j - 1];
  }

  /** A level-i link after the splice of entry `e` at position `r`: the
      links that crossed `r` on the new entry's levels now reference it,
      every other link keeps its target, and positions from `r` on move up
      by one. */
  lemma {:induction false} InsertAtLink<V>(es: seq<Entry<V>>, r: int, e: Entry<V>, c: int, i: nat)
    requires 0 <= r <= |es| && -1 <= c < |es|
    ensures var hs := EHeights(es); var es' := InsertAt(es, r, e);
      var c' := if c < r then c else c + 1;
      (if i < e.height && c < r <= NextAt(hs, c, i) then Some(e.key) else EKeyAt(es, NextAt(hs, c, i)))
        == EKeyAt(es', NextAt(EHeights(es'), c', i))
  {
    var hs := EHeights(es);
    EHeightsInsertAt(es, r, e);
    NextAtInsert(hs, r, e.height, c, i);
    InsertAtKeyAt(es, r, e, NextAt(hs, c, i));
  }

  /** The new entry's own level-i link after the splice. */
  lemma {:induction false} InsertAtOwnLink<V>(es: seq<Entry<V>>, r: int, e: Entry<V>, i: nat)
    requires 0 <= r <= |es|
    ensures var es' := InsertAt(es, r, e);
      EKeyAt(es, NextAt(EHeights(es), r - 1, i)) == EKeyAt(es', NextAt(EHeights(es'), r, i))
  {
    var hs := EHeights(es);
    EHeightsInsertAt(es, r, e);
    NextAtInserted(hs, r, e.height, i);
    InsertAtKeyAt(es, r, e, NextAt(hs, r - 1, i));
  }

  lemma {:induction false} EHeightsRemoveAt<V>(es: seq<Entry<V>>, q: int)
    requires 0 <= q < |es|
    ensures EHeights(RemoveAt(es, q)) == EHeights(es)[..q] + EHeights(es)[q + 1..]
  {
    var es' := RemoveAt(es, q);
    assert forall j {:trigger es'[j]} :: 0 <= j < q ==> es'[j] == es[j];
    assert forall j {:trigger es'[j]} :: q <= j < |es'| ==> es'[j] == es[j + 1];
  }

  /** Positions after `q` move down by one when the entry at `q` is taken away. */
  lemma {:induction false} RemoveAtKeyAt<V>(es: seq<Entry<V>>, q: int, n: int)
    requires 0 <= q < |es| && -1 <= n <= |es| && n != q
    ensures EKeyAt(RemoveAt(es, q), if n < q then n else n - 1) == EKeyAt(es, n)
  {
    var es' := RemoveAt(es, q);
    if 0 <= n < q {
      assert es'[n] == es[n];
    } else if q < n < |es| {
      assert es'[n - 1] == es[n];
    }
  }

  /** A level-i link after the entry at `q` is taken away: a link that
      referenced it takes over its successor on that level, every other
      link keeps its target, and positions after `q` move down by one. */
  lemma {:induction false} RemoveAtLink<V>(es: seq<Entry<V>>, q: int, c: int, i: nat)
    requires 0 <= q < |es| && -1 <= c < |es| && c != q
    ensures var hs := EHeights(es); var es' := RemoveAt(es, q);
      var c' := if c < q then c else c - 1;
      (if NextAt(hs, c, i) == q then EKeyAt(es, NextAt(hs, q, i)) else EKeyAt(es, NextAt(hs, c, i)))
        == EKeyAt(es', NextAt(EHeights(es'), c', i))
  {
    var hs := EHeights(es);
    var n := if NextAt(hs, c, i) == q then NextAt(hs, q, i) else NextAt(hs, c, i);
    EHeightsRemoveAt(es, q);
    NextAtRemove(hs, q, c, i);
    RemoveAtKeyAt(es, q, n);
  }

  // ---------------------------------------------------------------------
  // Entry sequences with one value overwritten.

  /** The entries with the value at position `q` replaced by `v`. */
  function Overwrite<V>(es: seq<Entry<V>>, q: int, v: V): (es': seq<Entry<V>>)
    requires 0 <= q < |es|
    ensures |es'| == |es|
  {
    es[q := es[q].(value := v)]
  }

  /** Overwriting a value keeps the keys and the heights. */
  lemma {:induction false} OverwriteShape<V>(es: seq<Entry<V>>, q: int, v: V)
    requires 0 <= q < |es|
    ensures EHeights(Overwrite(es, q, v)) == EHeights(es)
    ensures forall n :: EKeyAt(Overwrite(es, q, v), n) == EKeyAt(es, n)
    ensures forall j :: 0 <= j <= |es| ==> EPrevKey(Overwrite(es, q, v), j) == EPrevKey(es, j)
    ensures TopLevel(Overwrite(es, q, v)) == TopLevel(es)
    ensures WellFormed(es) ==> WellFormed(Overwrite(es, q, v))
  {
    var es' := Overwrite(es, q, v);
    assert forall j :: 0 <= j < |es| ==> es'[j].key == es[j].key && es'[j].height == es[j].height;
    SeqExt(EHeights(es'), EHeights(es));
    TopLevelUnique(es', TopLevel(es));
  }

  /** The canonical list of the overwritten entries is the canonical list
      of the old ones with that one node's value replaced. */
  lemma {:induction false} BuildOverwrite<V>(es: seq<Entry<V>>, q: int, v: V)
    requires 0 <= q < |es|
    ensures var b := Build(es);
      Build(Overwrite(es, q, v)) == b.(nodes := b.nodes[q := b.nodes[q].(value := v)])
  {
    var es' := Overwrite(es, q, v);
    var b := Build(es);
    var p := b.(nodes := b.nodes[q := b.nodes[q].(value := v)]);
    var hs := EHeights(es);
    OverwriteShape(es, q, v);
    forall i | 0 <= i < MaxLevel
      ensures p.header[i] == Build(es').header[i]
    {
      assert p.header[i] == EKeyAt(es, NextAt(hs, -1, i));
    }
    SeqExt(p.header, Build(es').header);
    forall j | 0 <= j < |es|
      ensures p.nodes[j] == Build(es').nodes[j]
    {
      assert b.nodes[j].forward == seq(es[j].height, i requires 0 <= i < es[j].height => EKeyAt(es, NextAt(hs, j, i)));
      assert NodeMatches(p.nodes[j], es', j);
      NodeMatchesBuild(p.nodes[j], es', j);
    }
    SeqExt(p.nodes, Build(es').nodes);
    BuildExt(p, es');
  }
}
