/** The node/level model of the skip list and its representation invariant.

    A node is identified by its key (keys are unique), so every reference the
    Go code holds as a pointer (`forward`, `backword`, `tail`) is held here as
    the key of the node it points to, or None for nil. The real nodes live in
    an arena `nodes`, listed in level-0 order; the header sentinel is just its
    MaxLevel forward links. A cursor is -1 for the header or an arena
    position; following a link is `Locate`, which yields |nodes| for nil. */
module Layout {
  import opened Options
  import opened Order
  import opened Levels

  /** `forward` has one slot per level of the node: its height. */
  datatype Node<V> = Node(key: Key, value: V, backward: Option<Key>, forward: seq<Option<Key>>)

  datatype SkipList<V> = SkipList(
    header: seq<Option<Key>>,
    nodes: seq<Node<V>>,
    tail: Option<Key>,
    length: int,
    level: int)

  /** The level-0 contents, with each node's height: the abstract view. */
  datatype Entry<V> = Entry(key: Key, value: V, height: nat)

  function Entries<V>(nodes: seq<Node<V>>): seq<Entry<V>> {
    seq(|nodes|, j requires 0 <= j < |nodes| => Entry(nodes[j].key, nodes[j].value, |nodes[j].forward|))
  }

  function Heights<V>(nodes: seq<Node<V>>): seq<nat> {
    seq(|nodes|, j requires 0 <= j < |nodes| => |nodes[j].forward|)
  }

  /** The first position after cursor `c` whose height exceeds level `i`
      (so it sits on the level-i chain), or |hs| when there is none. */
  function NextAt(hs: seq<nat>, c: int, i: nat): (p: int)
    requires -1 <= c < |hs|
    ensures c < p <= |hs|
    ensures p < |hs| ==> i < hs[p]
    decreases |hs| - c
  {
    if c + 1 == |hs| then |hs|
    else if i < hs[c + 1] then c + 1
    else NextAt(hs, c + 1, i)
  }

  function KeyAt<V>(nodes: seq<Node<V>>, p: int): Option<Key> {
    if 0 <= p < |nodes| then Some(nodes[p].key) else None
  }

  /** The arena position of the node with key `k`, or |nodes| if there is none. */
  function Locate<V>(nodes: seq<Node<V>>, k: Key): (p: nat)
    ensures p <= |nodes|
    ensures p < |nodes| ==> SameKey(nodes[p].key, k)
    ensures forall q {:trigger SameKey(nodes[q].key, k)} :: 0 <= q < p ==> !SameKey(nodes[q].key, k)
  {
    LocateFrom(nodes, k, 0)
  }

  /** Locate, searching from position `s` on. */
  function LocateFrom<V>(nodes: seq<Node<V>>, k: Key, s: nat): (p: nat)
    requires s <= |nodes|
    ensures s <= p <= |nodes|
    ensures p < |nodes| ==> SameKey(nodes[p].key, k)
    ensures forall q {:trigger SameKey(nodes[q].key, k)} :: s <= q < p ==> !SameKey(nodes[q].key, k)
    decreases |nodes| - s
  {
    if s == |nodes| || SameKey(nodes[s].key, k) then s
    else LocateFrom(nodes, k, s + 1)
  }

  /** Whether some node's key equals `key`. */
  ghost predicate HasKey<V>(nodes: seq<Node<V>>, key: Key) {
    exists j :: 0 <= j < |nodes| && SameKey(nodes[j].key, key)
  }

  /** The position a link leads to; |nodes| stands for nil. */
  function Target<V>(l: SkipList<V>, link: Option<Key>): nat {
    match link
    case None => |l.nodes|
    case Some(k) => Locate(l.nodes, k)
  }

  /** Following a link to the node it references. */
  function Deref<V>(l: SkipList<V>, link: Option<Key>): Option<Node<V>> {
    var p := Target(l, link);
    if p < |l.nodes| then Some(l.nodes[p]) else None
  }

  predicate IsCursor<V>(l: SkipList<V>, c: int) {
    -1 <= c < |l.nodes|
  }

  /** Whether the node (or header) at cursor `c` has a slot at level `i`. */
  predicate Reaches<V>(l: SkipList<V>, c: int, i: nat)
    requires IsCursor(l, c)
  {
    if c == -1 then i < |l.header| else i < Heights(l.nodes)[c]
  }

  /** The level-i forward link of the cursor: `x.level[i].forward`. */
  function Link<V>(l: SkipList<V>, c: int, i: nat): Option<Key>
    requires IsCursor(l, c) && Reaches(l, c, i)
  {
    if c == -1 then l.header[i] else l.nodes[c].forward[i]
  }

  /** Assigns `x.level[i].forward` for the cursor `c`. */
  function SetLink<V>(l: SkipList<V>, c: int, i: nat, v: Option<Key>): (l': SkipList<V>)
    requires IsCursor(l, c) && Reaches(l, c, i)
    ensures SameShape(l, l')
    ensures forall d, k {:trigger Link(l', d, k)} :: IsCursor(l, d) && Reaches(l, d, k) ==>
      Link(l', d, k) == (if d == c && k == i then v else Link(l, d, k))
  {
    if c == -1 then l.(header := l.header[i := v])
    else l.(nodes := l.nodes[c := l.nodes[c].(forward := l.nodes[c].forward[i := v])])
  }

  /** The backward links in arena order. */
  function Backs<V>(nodes: seq<Node<V>>): seq<Option<Key>> {
    seq(|nodes|, j requires 0 <= j < |nodes| => nodes[j].backward)
  }

  /** Two lists that differ at most in the targets of their forward links. */
  ghost predicate SameShape<V>(a: SkipList<V>, b: SkipList<V>) {
    && |a.header| == |b.header|
    && Entries(a.nodes) == Entries(b.nodes)
    && Heights(a.nodes) == Heights(b.nodes)
    && Backs(a.nodes) == Backs(b.nodes)
    && a.tail == b.tail
    && a.length == b.length
    && a.level == b.level
  }

  lemma {:induction false} SameShapeAt<V>(a: SkipList<V>, b: SkipList<V>, j: int)
    requires SameShape(a, b) && 0 <= j < |a.nodes|
    ensures |b.nodes| == |a.nodes|
    ensures a.nodes[j].key == b.nodes[j].key && a.nodes[j].value == b.nodes[j].value
    ensures a.nodes[j].backward == b.nodes[j].backward
    ensures |a.nodes[j].forward| == |b.nodes[j].forward|
  {
    assert |Entries(a.nodes)| == |Entries(b.nodes)|;
    assert Entries(a.nodes)[j] == Entries(b.nodes)[j];
    assert Backs(a.nodes)[j] == Backs(b.nodes)[j];
  }

  /** Lists of the same shape have the same cursors and the same levels at each. */
  lemma {:induction false} SameShapeReaches<V>(a: SkipList<V>, b: SkipList<V>)
    requires SameShape(a, b)
    ensures forall c, i: nat {:trigger Reaches(a, c, i)} {:trigger Reaches(b, c, i)} :: IsCursor(a, c) && Reaches(a, c, i) ==> IsCursor(b, c) && Reaches(b, c, i)
  {
    assert |Entries(a.nodes)| == |Entries(b.nodes)|;
    forall c, i: nat | IsCursor(a, c) && Reaches(a, c, i)
      ensures IsCursor(b, c) && Reaches(b, c, i)
    {
      if c >= 0 {
        SameShapeAt(a, b, c);
      }
    }
  }

  // ---------------------------------------------------------------------
  // The representation invariant.

  ghost predicate HeightsOk<V>(l: SkipList<V>) {
    forall j :: 0 <= j < |l.nodes| ==> 1 <= |l.nodes[j].forward| <= MaxLevel
  }

  /** The level-0 chain is strictly ascending. */
  ghost predicate Sorted<V>(nodes: seq<Node<V>>) {
    forall j, k {:trigger Less(nodes[j].key, nodes[k].key)} :: 0 <= j < k < |nodes| ==> Less(nodes[j].key, nodes[k].key)
  }

  /** Every forward link, of the header and of every node, at every level,
      references the next node on that level's chain, or is nil at its end. */
  ghost predicate LinksOk<V>(l: SkipList<V>) {
    forall c, i {:trigger Link(l, c, i)} :: IsCursor(l, c) && Reaches(l, c, i) ==>
      Link(l, c, i) == KeyAt(l.nodes, NextAt(Heights(l.nodes), c, i))
  }

  /** The key of the level-0 predecessor of position `j`; nil for the first node. */
  function PrevKey<V>(nodes: seq<Node<V>>, j: int): Option<Key>
    requires 0 <= j <= |nodes|
  {
    if j == 0 then None else Some(nodes[j - 1].key)
  }

  /** Each backward link is the level-0 predecessor, nil after the header. */
  ghost predicate BackOk<V>(l: SkipList<V>) {
    forall j {:trigger PrevKey(l.nodes, j)} :: 0 <= j < |l.nodes| ==> l.nodes[j].backward == PrevKey(l.nodes, j)
  }

  ghost predicate TailOk<V>(l: SkipList<V>) {
    l.tail == (if |l.nodes| == 0 then None else Some(l.nodes[|l.nodes| - 1].key))
  }

  /** `level` is the highest level whose header link is set, or 1. */
  ghost predicate LevelOk<V>(l: SkipList<V>) {
    && |l.header| == MaxLevel
    && 1 <= l.level <= MaxLevel
    && (forall i :: l.level <= i < MaxLevel ==> l.header[i] == None)
    && (l.level == 1 || l.header[l.level - 1].Some?)
  }

  ghost predicate Valid<V>(l: SkipList<V>) {
    && LevelOk(l)
    && HeightsOk(l)
    && Sorted(l.nodes)
    && LinksOk(l)
    && BackOk(l)
    && TailOk(l)
    && l.length == |l.nodes|
  }

  /** Number of keys less than `t`: the position where `t` belongs. */
  ghost function Rank<V>(nodes: seq<Node<V>>, t: Key): (r: nat)
    requires Sorted(nodes)
    ensures r <= |nodes|
    ensures forall q {:trigger Less(nodes[q].key, t)} :: 0 <= q < r ==> Less(nodes[q].key, t)
    ensures forall q {:trigger Less(nodes[q].key, t)} :: r <= q < |nodes| ==> !Less(nodes[q].key, t)
  {
    RankFrom(nodes, t, 0)
  }

  /** Rank, counting from position `s` on. */
  ghost function RankFrom<V>(nodes: seq<Node<V>>, t: Key, s: nat): (r: nat)
    requires Sorted(nodes) && s <= |nodes|
    ensures s <= r <= |nodes|
    ensures forall q {:trigger Less(nodes[q].key, t)} :: s <= q < r ==> Less(nodes[q].key, t)
    ensures forall q {:trigger Less(nodes[q].key, t)} :: r <= q < |nodes| ==> !Less(nodes[q].key, t)
    decreases |nodes| - s
  {
    if s == |nodes| then s
    else if !Less(nodes[s].key, t) then
      assert forall q :: s < q < |nodes| ==> Less(nodes[s].key, nodes[q].key);
      s
    else RankFrom(nodes, t, s + 1)
  }

  // ---------------------------------------------------------------------
  // Facts about the layout.

  /** NextAt is characterised by its three properties: the first position
      after `c` that is on the level-i chain, or the end. */
  lemma {:induction false} NextAtUnique(hs: seq<nat>, c: int, i: nat, p: int)
    requires -1 <= c < p <= |hs|
    requires p < |hs| ==> i < hs[p]
    requires forall q :: c < q < p ==> hs[q] <= i
    ensures NextAt(hs, c, i) == p
    decreases p - c
  {
    if c + 1 < p {
      NextAtUnique(hs, c + 1, i, p);
    }
  }

  /** The positions NextAt passes over are below level `i`. */
  lemma {:induction false} NextAtPasses(hs: seq<nat>, c: int, i: nat, q: int)
    requires -1 <= c < |hs| && c < q < NextAt(hs, c, i)
    ensures hs[q] <= i
    decreases |hs| - c
  {
    if q > c + 1 {
      NextAtPasses(hs, c + 1, i, q);
    }
  }

  /** A position after `c` on the level-i chain is at or after NextAt. */
  lemma {:induction false} NextAtAtMost(hs: seq<nat>, c: int, i: nat, p: int)
    requires -1 <= c < p < |hs| && i < hs[p]
    ensures NextAt(hs, c, i) <= p
    decreases p - c
  {
    if c + 1 < p && hs[c + 1] <= i {
      NextAtAtMost(hs, c + 1, i, p);
    }
  }

  /** Starting the search anywhere before the next level-i node finds the same node. */
  lemma {:induction false} NextAtSkip(hs: seq<nat>, c: int, d: int, i: nat)
    requires -1 <= c < |hs| && c <= d < NextAt(hs, c, i)
    ensures NextAt(hs, d, i) == NextAt(hs, c, i)
  {
    forall q | d < q < NextAt(hs, c, i)
      ensures hs[q] <= i
    {
      NextAtPasses(hs, c, i, q);
    }
    NextAtUnique(hs, d, i, NextAt(hs, c, i));
  }

  /** On each level there is only one cursor whose chain successor is at or
      after position `r` while the cursor itself is before `r`. */
  lemma {:induction false} ChainPredUnique(hs: seq<nat>, c: int, d: int, i: nat, r: int)
    requires -1 <= c < |hs| && -1 <= d < |hs|
    requires c == -1 || i < hs[c]
    requires d == -1 || i < hs[d]
    requires c < r <= NextAt(hs, c, i) && d < r <= NextAt(hs, d, i)
    ensures c == d
  {
    if c < d {
      NextAtPasses(hs, c, i, d);
    } else if d < c {
      NextAtPasses(hs, d, i, c);
    }
  }

  /** Inserting a node of height `h` at position `r` of the arena. */
  lemma {:induction false} NextAtInsert(hs: seq<nat>, r: int, h: nat, c: int, i: nat)
    requires 0 <= r <= |hs|
    requires -1 <= c < |hs|
    ensures var hs' := hs[..r] + [h] + hs[r..];
      var c' := if c < r then c else c + 1;
      var n := NextAt(hs, c, i);
      NextAt(hs', c', i) == (if c < r <= n && i < h then r else if n < r then n else n + 1)
  {
    var hs' := hs[..r] + [h] + hs[r..];
    var c' := if c < r then c else c + 1;
    var n := NextAt(hs, c, i);
    var p := if c < r <= n && i < h then r else if n < r then n else n + 1;
    assert forall q {:trigger hs'[q]} :: 0 <= q < r ==> hs'[q] == hs[q];
    assert hs'[r] == h;
    assert forall q {:trigger hs'[q]} :: r < q < |hs'| ==> hs'[q] == hs[q - 1];
    forall q | c' < q < p
      ensures hs'[q] <= i
    {
      if q < r {
        NextAtPasses(hs, c, i, q);
      } else if r < q {
        NextAtPasses(hs, c, i, q - 1);
      }
    }
    NextAtUnique(hs', c', i, p);
  }

  /** The new node's own level-i successor after inserting at position `r`. */
  lemma {:induction false} NextAtInserted(hs: seq<nat>, r: int, h: nat, i: nat)
    requires 0 <= r <= |hs|
    ensures NextAt(hs[..r] + [h] + hs[r..], r, i) == NextAt(hs, r - 1, i) + 1
  {
    var hs' := hs[..r] + [h] + hs[r..];
    assert forall q {:trigger hs'[q]} :: r < q < |hs'| ==> hs'[q] == hs[q - 1];
    forall q | r < q < NextAt(hs, r - 1, i) + 1
      ensures hs'[q] <= i
    {
      NextAtPasses(hs, r - 1, i, q - 1);
    }
    NextAtUnique(hs', r, i, NextAt(hs, r - 1, i) + 1);
  }

  /** Removing the node at position `q` from the arena. */
  lemma {:induction false} NextAtRemove(hs: seq<nat>, q: int, c: int, i: nat)
    requires 0 <= q < |hs|
    requires -1 <= c < |hs| && c != q
    ensures var hs' := hs[..q] + hs[q + 1..];
      var c' := if c < q then c else c - 1;
      var n := if NextAt(hs, c, i) == q then NextAt(hs, q, i) else NextAt(hs, c, i);
      NextAt(hs', c', i) == (if n < q then n else n - 1)
  {
    var hs' := hs[..q] + hs[q + 1..];
    var c' := if c < q then c else c - 1;
    var n := if NextAt(hs, c, i) == q then NextAt(hs, q, i) else NextAt(hs, c, i);
    assert forall k {:trigger hs'[k]} :: 0 <= k < q ==> hs'[k] == hs[k];
    assert forall k {:trigger hs'[k]} :: q <= k < |hs'| ==> hs'[k] == hs[k + 1];
    forall k | c' < k < (if n < q then n else n - 1)
      ensures hs'[k] <= i
    {
      if k < q {
        NextAtPasses(hs, c, i, k);
      } else if c < q && NextAt(hs, c, i) == q {
        NextAtPasses(hs, q, i, k + 1);
      } else {
        NextAtPasses(hs, c, i, k + 1);
      }
    }
    NextAtUnique(hs', c', i, if n < q then n else n - 1);
  }

  /** Every node has a level-0 slot, so the level-0 successor is the next position. */
  lemma {:induction false} NextAtZero<V>(l: SkipList<V>, c: int)
    requires HeightsOk(l) && IsCursor(l, c)
    ensures NextAt(Heights(l.nodes), c, 0) == c + 1
  {
    NextAtUnique(Heights(l.nodes), c, 0, c + 1);
  }

  /** In a sorted arena the node with a given key is found at its position. */
  lemma {:induction false} LocateAt<V>(nodes: seq<Node<V>>, p: int)
    requires Sorted(nodes) && 0 <= p < |nodes|
    ensures Locate(nodes, nodes[p].key) == p
  {
    assert SameKey(nodes[p].key, nodes[p].key);
    assert forall q :: 0 <= q < p ==> Less(nodes[q].key, nodes[p].key);
  }

  /** A link that references the node at `q` is the link of `q`'s chain
      predecessor, and `q` reaches that level. */
  lemma {:induction false} LinkToNode<V>(l: SkipList<V>, c: int, i: nat, q: int)
    requires Valid(l) && IsCursor(l, c) && Reaches(l, c, i) && 0 <= q < |l.nodes|
    requires Link(l, c, i) == Some(l.nodes[q].key)
    ensures NextAt(Heights(l.nodes), c, i) == q
    ensures i < |l.nodes[q].forward|
  {
    var n := NextAt(Heights(l.nodes), c, i);
    assert Link(l, c, i) == KeyAt(l.nodes, n);
    assert n < q ==> Less(l.nodes[n].key, l.nodes[q].key);
    assert q < n < |l.nodes| ==> Less(l.nodes[q].key, l.nodes[n].key);
  }

  /** Following a set link moves strictly forward along the arena, to a node
      that reaches the same level. */
  lemma {:induction false} StepForward<V>(l: SkipList<V>, c: int, i: nat)
    requires Valid(l) && IsCursor(l, c) && Reaches(l, c, i)
    requires Link(l, c, i).Some?
    ensures var n := NextAt(Heights(l.nodes), c, i);
      && n < |l.nodes|
      && Locate(l.nodes, Link(l, c, i).value) == n
      && Reaches(l, n, i)
  {
    var n := NextAt(Heights(l.nodes), c, i);
    assert Link(l, c, i) == KeyAt(l.nodes, n);
    LocateAt(l.nodes, n);
  }

  /** No node is taller than the list's level, since the header links above
      `level` are all nil. */
  lemma {:induction false} HeightsBelowLevel<V>(l: SkipList<V>, j: int)
    requires Valid(l) && 0 <= j < |l.nodes|
    ensures |l.nodes[j].forward| <= l.level
  {
    var h := |l.nodes[j].forward|;
    assert Heights(l.nodes)[j] == h;
    if l.level < h {
      HeaderAboveLevel(l, h - 1);
      NextAtPasses(Heights(l.nodes), -1, h - 1, j);
    }
  }

  /** Above `level` the header's chains are empty. */
  lemma {:induction false} HeaderAboveLevel<V>(l: SkipList<V>, i: nat)
    requires Valid(l) && l.level <= i < MaxLevel
    ensures NextAt(Heights(l.nodes), -1, i) == |l.nodes|
  {
    assert Link(l, -1, i) == KeyAt(l.nodes, NextAt(Heights(l.nodes), -1, i));
  }
}
