/** Insert keeps the representation invariant and does what an ordered map
    insert promises: an absent key gets a new entry of height `h` at its
    rank, a present key gets its value overwritten and nothing else moves. */
module InsertProof {
  import opened Options
  import opened Order
  import opened Levels
  import opened Layout
  import opened Descent
  import opened Engine
  import opened Canon

  /** The level of the list after an Insert of height `h`. */
  function Top<V>(l: SkipList<V>, h: int): int {
    if h > l.level then h else l.level
  }

  /** The `update` array of Insert, raised to the new level. */
  function Raised<V>(l: SkipList<V>, key: Key, h: int): seq<int>
    requires Valid(l) && 1 <= h <= MaxLevel
  {
    Raise(Update(l, key), Top(l, h))
  }

  /** `u` is an `update` array for `key` raised to the level after the
      insert: on each level it names the last cursor before the rank of
      `key`. The proofs about the splice take any such array; RaisedFinds
      shows the descent computes one. */
  ghost predicate Attaches<V>(l: SkipList<V>, key: Key, h: int, u: seq<int>)
    requires Valid(l)
  {
    var r := Rank(l.nodes, key);
    && |u| == Top(l, h)
    && forall j :: 0 <= j < |u| ==>
      IsCursor(l, u[j]) && Reaches(l, u[j], j) && u[j] < r <= NextAt(Heights(l.nodes), u[j], j)
  }

  /** The list after the splice loop along `u`, and the new node's forward links. */
  ghost function Spliced<V>(l: SkipList<V>, key: Key, h: int, u: seq<int>): (SkipList<V>, seq<Option<Key>>)
    requires Valid(l) && 1 <= h <= MaxLevel && Attaches(l, key, h, u)
  {
    Splice(l.(level := Top(l, h)), u, key, 0, h)
  }

  /** The level-0 step after the descent reaches the position of `key`'s rank. */
  lemma {:induction false} InsertTarget<V>(l: SkipList<V>, key: Key)
    requires Valid(l)
    ensures Update(l, key)[0] == Rank(l.nodes, key) - 1
    ensures Target(l, Link(l, Update(l, key)[0], 0)) == Rank(l.nodes, key)
  {
    var r: int := Rank(l.nodes, key);
    var u0 := Update(l, key)[0];
    UpdateFinds(l, key);
    NextAtZero(l, u0);
    assert Link(l, u0, 0) == KeyAt(l.nodes, NextAt(Heights(l.nodes), u0, 0));
    if r < |l.nodes| {
      LocateAt(l.nodes, r);
    }
  }

  /** The raised `update` array attaches the key on every level. */
  lemma {:induction false} RaisedFinds<V>(l: SkipList<V>, key: Key, h: int)
    requires Valid(l) && 1 <= h <= MaxLevel
    ensures Attaches(l, key, h, Raised(l, key, h))
  {
    var u := Raised(l, key, h);
    var r: int := Rank(l.nodes, key);
    UpdateFinds(l, key);
    forall j | 0 <= j < Top(l, h)
      ensures IsCursor(l, u[j]) && Reaches(l, u[j], j) && u[j] < r <= NextAt(Heights(l.nodes), u[j], j)
    {
      if j < l.level {
        assert LastBefore(l, u[j], j, key);
      } else {
        HeaderAboveLevel(l, j);
      }
    }
  }

  /** After the splice loop the new node's level-i link is the level-i
      successor of the position before the rank of `key`. */
  lemma {:induction false} SplicedForward<V>(l: SkipList<V>, key: Key, h: int, u: seq<int>)
    requires Valid(l) && 1 <= h <= MaxLevel && Attaches(l, key, h, u)
    ensures var sp := Spliced(l, key, h, u); var hs := Heights(l.nodes); var r: int := Rank(l.nodes, key);
      && |sp.1| == h
      && forall i :: 0 <= i < h ==> sp.1[i] == KeyAt(l.nodes, NextAt(hs, r - 1, i))
  {
    forall i | 0 <= i < h
      ensures Spliced(l, key, h, u).1[i] == KeyAt(l.nodes, NextAt(Heights(l.nodes), Rank(l.nodes, key) - 1, i))
    {
      SplicedForwardAt(l, key, h, u, i);
    }
  }

  lemma {:induction false} SplicedForwardAt<V>(l: SkipList<V>, key: Key, h: int, u: seq<int>, i: nat)
    requires Valid(l) && 1 <= h <= MaxLevel && Attaches(l, key, h, u) && i < h
    ensures var sp := Spliced(l, key, h, u); var r: int := Rank(l.nodes, key);
      |sp.1| == h && sp.1[i] == KeyAt(l.nodes, NextAt(Heights(l.nodes), r - 1, i))
  {
    var hs := Heights(l.nodes);
    var r: int := Rank(l.nodes, key);
    var c := u[i];
    assert IsCursor(l, c) && Reaches(l, c, i) && c < r <= NextAt(hs, c, i);
    SplicedTakesOver(l, key, h, u, i);
    assert Link(l, c, i) == KeyAt(l.nodes, NextAt(hs, c, i));
    NextAtSkip(hs, c, r - 1, i);
  }

  /** The new node's level-i link is the one `u[i]` had before. */
  lemma {:induction false} SplicedTakesOver<V>(l: SkipList<V>, key: Key, h: int, u: seq<int>, i: nat)
    requires Valid(l) && 1 <= h <= MaxLevel && Attaches(l, key, h, u) && i < h
    ensures |Spliced(l, key, h, u).1| == h
    ensures IsCursor(l, u[i]) && Reaches(l, u[i], i) && Spliced(l, key, h, u).1[i] == Link(l, u[i], i)
  {
    var l' := l.(level := Top(l, h));
    assert Link(l', u[i], i) == Link(l, u[i], i);
  }

  /** After the splice loop exactly the links that crossed the rank of `key`
      on levels below `h` reference the new key; all others are as before. */
  lemma {:induction false} SplicedLinks<V>(l: SkipList<V>, key: Key, h: int, u: seq<int>)
    requires Valid(l) && 1 <= h <= MaxLevel && Attaches(l, key, h, u)
    ensures var sp := Spliced(l, key, h, u); var hs := Heights(l.nodes); var r: int := Rank(l.nodes, key);
      forall c, i: nat {:trigger Link(sp.0, c, i)} :: IsCursor(l, c) && Reaches(l, c, i) ==>
        Link(sp.0, c, i) == (if i < h && c < r <= NextAt(hs, c, i) then Some(key) else KeyAt(l.nodes, NextAt(hs, c, i)))
  {
    var sp := Spliced(l, key, h, u);
    var hs := Heights(l.nodes);
    var r: int := Rank(l.nodes, key);
    forall c, i: nat {:trigger Link(sp.0, c, i)} | IsCursor(l, c) && Reaches(l, c, i)
      ensures Link(sp.0, c, i) == (if i < h && c < r <= NextAt(hs, c, i) then Some(key) else KeyAt(l.nodes, NextAt(hs, c, i)))
    {
      assert Link(l, c, i) == KeyAt(l.nodes, NextAt(hs, c, i));
      assert c != -1 ==> hs[c] == |l.nodes[c].forward|;
      if i < h && c < r <= NextAt(hs, c, i) {
        ChainPredUnique(hs, c, u[i], i, r);
      }
    }
  }

  /** The backward-link repair of Insert, applied at position `x` of a list
      that is canonical except for the backward links of `x` and its
      successor (and the tail when `x` is last), completes the canonical list. */
  lemma {:induction false} RepairBackwardBuild<V>(p: SkipList<V>, es: seq<Entry<V>>, x: int)
    requires WellFormed(es) && 0 <= x < |es|
    requires p.header == Build(es).header
    requires |p.nodes| == |es| && forall j {:trigger p.nodes[j]} :: 0 <= j < |es| ==> NodeMatches(p.nodes[j], es, j)
    requires forall j :: 0 <= j < |es| && j != x && j != x + 1 ==> p.nodes[j].backward == EPrevKey(es, j)
    requires x + 1 < |es| ==> p.tail == EPrevKey(es, |es|)
    requires p.length == |es| && p.level == TopLevel(es)
    ensures 0 < |p.nodes[x].forward| && RepairBackward(p, x - 1, x) == Build(es)
  {
    var hs := EHeights(es);
    var b := Build(es);
    assert NodeMatches(p.nodes[x], es, x);
    NextAtUnique(hs, x, 0, x + 1);
    assert p.nodes[x].forward[0] == EKeyAt(es, x + 1);
    var l' := RepairBackward(p, x - 1, x);
    var back := if x - 1 == -1 then None else Some(p.nodes[x - 1].key);
    var l1 := p.(nodes := p.nodes[x := p.nodes[x].(backward := back)]);
    assert back == EPrevKey(es, x);
    if x + 1 < |es| {
      forall j, k | 0 <= j < k < |l1.nodes|
        ensures Less(l1.nodes[j].key, l1.nodes[k].key)
      {
        assert l1.nodes[j].key == es[j].key && l1.nodes[k].key == es[k].key;
      }
      LocateAt(l1.nodes, x + 1);
      assert l' == l1.(nodes := l1.nodes[x + 1 := l1.nodes[x + 1].(backward := Some(p.nodes[x].key))]);
    } else {
      assert l' == l1.(tail := Some(p.nodes[x].key));
    }
    forall j | 0 <= j < |es|
      ensures l'.nodes[j] == b.nodes[j]
    {
      NodeMatchesBuild(l'.nodes[j], es, j);
    }
    SeqExt(l'.nodes, b.nodes);
    BuildExt(l', es);
  }

  // ---------------------------------------------------------------------
  // Insert of an absent key.

  /** The node Insert creates for an absent key, with its spliced links. */
  ghost function Fresh<V>(l: SkipList<V>, key: Key, value: V, h: int, u: seq<int>): Node<V>
    requires Valid(l) && 1 <= h <= MaxLevel && Attaches(l, key, h, u)
  {
    NewSkipListNode(h, key, value).(forward := Spliced(l, key, h, u).1)
  }

  /** The list after the splice loop with the new node placed in the arena
      at the rank of its key, before the backward links are repaired. */
  ghost function Placed<V>(l: SkipList<V>, key: Key, value: V, h: int, u: seq<int>): SkipList<V>
    requires Valid(l) && 1 <= h <= MaxLevel && Attaches(l, key, h, u)
  {
    Place(Spliced(l, key, h, u).0, Rank(l.nodes, key), Fresh(l, key, value, h, u))
  }

  /** The entries after inserting `key` at its rank. */
  ghost function Grown<V>(l: SkipList<V>, key: Key, value: V, h: nat): seq<Entry<V>>
    requires Valid(l)
  {
    InsertAt(Entries(l.nodes), Rank(l.nodes, key), Entry(key, value, h))
  }

  lemma {:induction false} InsertAbsentUnfold<V>(l: SkipList<V>, key: Key, value: V, h: int)
    requires Valid(l) && 1 <= h <= MaxLevel && !HasKey(l.nodes, key)
    ensures var u := Raised(l, key, h); var r: int := Rank(l.nodes, key);
      && Attaches(l, key, h, u)
      && 0 < |Placed(l, key, value, h, u).nodes[r].forward|
      && Insert(l, key, value, h) == RepairBackward(Placed(l, key, value, h, u), r - 1, r)
  {
    RaisedFinds(l, key, h);
    InsertTarget(l, key);
    var q := Rank(l.nodes, key);
    if q < |l.nodes| {
      assert !SameKey(l.nodes[q].key, key);
    }
  }

  lemma {:induction false} GrownWellFormed<V>(l: SkipList<V>, key: Key, value: V, h: int)
    requires Valid(l) && 1 <= h <= MaxLevel && !HasKey(l.nodes, key)
    ensures WellFormed(Grown(l, key, value, h))
  {
    var es := Entries(l.nodes);
    var r := Rank(l.nodes, key);
    EntriesWellFormed(l);
    forall j | r <= j < |es|
      ensures Less(key, es[j].key)
    {
      assert !Less(l.nodes[j].key, key) && !SameKey(l.nodes[j].key, key);
    }
    forall j | 0 <= j < r
      ensures Less(es[j].key, key)
    {
      assert Less(l.nodes[j].key, key);
    }
    InsertAtWellFormed(es, r, Entry(key, value, h));
  }

  /** The link SplicedLinks describes, read in the grown entries: cursor `c`
      of the old arena is position `c'` of the new one. */
  lemma {:induction false} SplicedLinkGrown<V>(l: SkipList<V>, key: Key, value: V, h: int, u: seq<int>, c: int, i: nat)
    requires Valid(l) && 1 <= h <= MaxLevel && Attaches(l, key, h, u)
    requires IsCursor(l, c) && Reaches(l, c, i)
    ensures var r := Rank(l.nodes, key); var es' := Grown(l, key, value, h);
      var c' := if c < r then c else c + 1;
      Link(Spliced(l, key, h, u).0, c, i) == EKeyAt(es', NextAt(EHeights(es'), c', i))
  {
    var hs := Heights(l.nodes);
    SplicedLinks(l, key, h, u);
    assert EHeights(Entries(l.nodes)) == hs;
    KeyAtEntries(l.nodes, NextAt(hs, c, i));
    InsertAtLink(Entries(l.nodes), Rank(l.nodes, key), Entry(key, value, h), c, i);
  }

  lemma {:induction false} PlacedHeader<V>(l: SkipList<V>, key: Key, value: V, h: int, u: seq<int>)
    requires Valid(l) && 1 <= h <= MaxLevel && Attaches(l, key, h, u)
    ensures Placed(l, key, value, h, u).header == Build(Grown(l, key, value, h)).header
  {
    var sp := Spliced(l, key, h, u);
    var pl := Placed(l, key, value, h, u);
    var es' := Grown(l, key, value, h);
    assert pl.header == sp.0.header;
    forall i | 0 <= i < MaxLevel
      ensures pl.header[i] == Build(es').header[i]
    {
      SplicedLinkGrown(l, key, value, h, u, -1, i);
    }
    SeqExt(pl.header, Build(es').header);
  }

  /** Outside the new node's position, the placed arena holds the spliced nodes. */
  lemma {:induction false} PlacedOld<V>(l: SkipList<V>, key: Key, value: V, h: int, u: seq<int>, j: int)
    requires Valid(l) && 1 <= h <= MaxLevel && Attaches(l, key, h, u)
    requires 0 <= j <= |l.nodes| && j != Rank(l.nodes, key)
    ensures var r := Rank(l.nodes, key); var c := if j < r then j else j - 1;
      0 <= c < |Spliced(l, key, h, u).0.nodes| && Placed(l, key, value, h, u).nodes[j] == Spliced(l, key, h, u).0.nodes[c]
  {
    var sp := Spliced(l, key, h, u);
    assert |sp.0.nodes| == |Entries(sp.0.nodes)| == |l.nodes|;
  }

  /** The splice loop changes forward links only. */
  lemma {:induction false} SplicedFields<V>(l: SkipList<V>, key: Key, h: int, u: seq<int>, c: int)
    requires Valid(l) && 1 <= h <= MaxLevel && Attaches(l, key, h, u) && 0 <= c < |l.nodes|
    ensures var n := Spliced(l, key, h, u).0.nodes[c];
      && n.key == l.nodes[c].key && n.value == l.nodes[c].value
      && n.backward == l.nodes[c].backward && |n.forward| == |l.nodes[c].forward|
  {
    SameShapeAt(l.(level := Top(l, h)), Spliced(l, key, h, u).0, c);
  }

  lemma {:induction false} PlacedOldForward<V>(l: SkipList<V>, key: Key, value: V, h: int, u: seq<int>, j: int)
    requires Valid(l) && 1 <= h <= MaxLevel && Attaches(l, key, h, u)
    requires 0 <= j <= |l.nodes| && j != Rank(l.nodes, key)
    ensures var n := Placed(l, key, value, h, u).nodes[j]; var es' := Grown(l, key, value, h);
      forall i :: 0 <= i < |n.forward| ==> n.forward[i] == EKeyAt(es', NextAt(EHeights(es'), j, i))
  {
    var sp := Spliced(l, key, h, u);
    var es' := Grown(l, key, value, h);
    var r: int := Rank(l.nodes, key);
    var c := if j < r then j else j - 1;
    PlacedOld(l, key, value, h, u, j);
    var n := sp.0.nodes[c];
    SplicedFields(l, key, h, u, c);
    forall i | 0 <= i < |n.forward|
      ensures n.forward[i] == EKeyAt(es', NextAt(EHeights(es'), j, i))
    {
      assert n.forward[i] == Link(sp.0, c, i);
      SplicedLinkGrown(l, key, value, h, u, c, i);
    }
  }

  /** Away from the new node and its successor, the old backward links are
      the predecessors in the grown entries. */
  lemma {:induction false} GrownBack<V>(l: SkipList<V>, key: Key, value: V, h: int, j: int)
    requires Valid(l) && 1 <= h <= MaxLevel
    requires 0 <= j <= |l.nodes| && j != Rank(l.nodes, key) && j != Rank(l.nodes, key) + 1
    ensures var c := if j < Rank(l.nodes, key) then j else j - 1;
      0 <= c < |l.nodes| && l.nodes[c].backward == EPrevKey(Grown(l, key, value, h), j)
  {
    var es' := Grown(l, key, value, h);
    var r: int := Rank(l.nodes, key);
    var c := if j < r then j else j - 1;
    assert l.nodes[c].backward == PrevKey(l.nodes, c);
    assert j > 0 ==> es'[j - 1] == Entries(l.nodes)[c - 1];
  }

  lemma {:induction false} PlacedOldBack<V>(l: SkipList<V>, key: Key, value: V, h: int, u: seq<int>, j: int)
    requires Valid(l) && 1 <= h <= MaxLevel && Attaches(l, key, h, u)
    requires 0 <= j <= |l.nodes| && j != Rank(l.nodes, key) && j != Rank(l.nodes, key) + 1
    ensures Placed(l, key, value, h, u).nodes[j].backward == EPrevKey(Grown(l, key, value, h), j)
  {
    var r: int := Rank(l.nodes, key);
    var c := if j < r then j else j - 1;
    PlacedOld(l, key, value, h, u, j);
    SplicedFields(l, key, h, u, c);
    GrownBack(l, key, value, h, j);
  }

  lemma {:induction false} PlacedOldNode<V>(l: SkipList<V>, key: Key, value: V, h: int, u: seq<int>, j: int)
    requires Valid(l) && 1 <= h <= MaxLevel && Attaches(l, key, h, u)
    requires 0 <= j <= |l.nodes| && j != Rank(l.nodes, key)
    ensures NodeMatches(Placed(l, key, value, h, u).nodes[j], Grown(l, key, value, h), j)
  {
    var es' := Grown(l, key, value, h);
    var r: int := Rank(l.nodes, key);
    var c := if j < r then j else j - 1;
    PlacedOld(l, key, value, h, u, j);
    SplicedFields(l, key, h, u, c);
    PlacedOldForward(l, key, value, h, u, j);
    assert es'[j] == Entries(l.nodes)[c];
  }

  lemma {:induction false} PlacedNewNode<V>(l: SkipList<V>, key: Key, value: V, h: int, u: seq<int>)
    requires Valid(l) && 1 <= h <= MaxLevel && Attaches(l, key, h, u)
    ensures NodeMatches(Placed(l, key, value, h, u).nodes[Rank(l.nodes, key)], Grown(l, key, value, h), Rank(l.nodes, key))
  {
    var pl := Placed(l, key, value, h, u);
    var es' := Grown(l, key, value, h);
    var hs := Heights(l.nodes);
    var r: int := Rank(l.nodes, key);
    SplicedForward(l, key, h, u);
    assert pl.nodes[r] == Fresh(l, key, value, h, u);
    assert EHeights(Entries(l.nodes)) == hs;
    forall i | 0 <= i < h
      ensures pl.nodes[r].forward[i] == EKeyAt(es', NextAt(EHeights(es'), r, i))
    {
      KeyAtEntries(l.nodes, NextAt(hs, r - 1, i));
      InsertAtOwnLink(Entries(l.nodes), r, Entry(key, value, h), i);
    }
  }

  lemma {:induction false} PlacedRest<V>(l: SkipList<V>, key: Key, value: V, h: int, u: seq<int>)
    requires Valid(l) && 1 <= h <= MaxLevel && Attaches(l, key, h, u)
    ensures var pl := Placed(l, key, value, h, u); var es' := Grown(l, key, value, h);
      && |pl.nodes| == |es'|
      && pl.length == |es'|
      && pl.level == Top(l, h)
      && (Rank(l.nodes, key) < |l.nodes| ==> pl.tail == EPrevKey(es', |es'|))
  {
    var sp := Spliced(l, key, h, u);
    var es' := Grown(l, key, value, h);
    assert |sp.0.nodes| == |Entries(sp.0.nodes)| == |l.nodes|;
    if Rank(l.nodes, key) < |l.nodes| {
      assert es'[|es'| - 1] == Entries(l.nodes)[|l.nodes| - 1];
    }
  }

  /** The level after the insert is the TopLevel of the grown entries. */
  lemma {:induction false} GrownTop<V>(l: SkipList<V>, key: Key, value: V, h: int)
    requires Valid(l) && 1 <= h <= MaxLevel
    ensures TopLevel(Grown(l, key, value, h)) == Top(l, h)
  {
    LevelIsTop(l);
    TopLevelInsertAt(Entries(l.nodes), Rank(l.nodes, key), Entry(key, value, h));
  }

  /** The placed list, with any attaching `update` array, is the canonical
      list of the grown entries once the backward links at the new node are
      repaired. */
  lemma {:induction false} PlacedRepaired<V>(l: SkipList<V>, key: Key, value: V, h: int, u: seq<int>)
    requires Valid(l) && 1 <= h <= MaxLevel && Attaches(l, key, h, u) && !HasKey(l.nodes, key)
    ensures var r: int := Rank(l.nodes, key); var pl := Placed(l, key, value, h, u);
      && 0 < |pl.nodes[r].forward|
      && RepairBackward(pl, r - 1, r) == Build(Grown(l, key, value, h))
  {
    var pl := Placed(l, key, value, h, u);
    var es' := Grown(l, key, value, h);
    var r: int := Rank(l.nodes, key);
    GrownWellFormed(l, key, value, h);
    PlacedHeader(l, key, value, h, u);
    PlacedRest(l, key, value, h, u);
    GrownTop(l, key, value, h);
    forall j | 0 <= j < |es'|
      ensures NodeMatches(pl.nodes[j], es', j)
      ensures j != r && j != r + 1 ==> pl.nodes[j].backward == EPrevKey(es', j)
    {
      if j == r {
        PlacedNewNode(l, key, value, h, u);
      } else {
        PlacedOldNode(l, key, value, h, u, j);
        if j != r + 1 {
          PlacedOldBack(l, key, value, h, u, j);
        }
      }
    }
    RepairBackwardBuild(pl, es', r);
  }

  /** Inserting an absent key yields exactly the canonical list of the
      entries with the new entry (key, value, height `h`) at the key's rank. */
  lemma {:induction false} InsertAbsent<V>(l: SkipList<V>, key: Key, value: V, h: int)
    requires Valid(l) && 1 <= h <= MaxLevel && !HasKey(l.nodes, key)
    ensures Insert(l, key, value, h) == Build(Grown(l, key, value, h))
  {
    InsertAbsentUnfold(l, key, value, h);
    PlacedRepaired(l, key, value, h, Raised(l, key, h));
  }
}
