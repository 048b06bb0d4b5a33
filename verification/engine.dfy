/** The operations of the skip list, following the Go methods step by step:
    construction, `Insert`, `SearchNode`/`Search`, `LowerBoundNode` (and its
    variant with a caller ordering), `DeleteNode` and the small accessors.
    Each pointer assignment of the source is one `SetLink` or one field
    update of the arena; the random height of `Insert` is the parameter `h`. */
module Engine {
  import opened Options
  import opened Order
  import opened Levels
  import opened Layout
  import opened Descent

  // ---------------------------------------------------------------------
  // Construction.

  /** A node of height `level` whose forward links and backward link are nil. */
  function NewSkipListNode<V>(level: nat, key: Key, value: V): (n: Node<V>)
    ensures n.key == key && n.value == value
    ensures |n.forward| == level
    ensures forall i :: 0 <= i < level ==> n.forward[i] == None
    ensures n.backward == None
  {
    Node(key, value, None, seq(level, _ => None))
  }

  /** The empty list: MaxLevel nil header links, no tail, length 0, level 1. */
  function NewSkipList<V>(): (l: SkipList<V>)
    ensures |l.header| == MaxLevel
    ensures forall i :: 0 <= i < MaxLevel ==> l.header[i] == None
    ensures l.nodes == [] && l.tail == None
    ensures l.length == 0 && l.level == 1
  {
    SkipList(seq(MaxLevel, _ => None), [], None, 0, 1)
  }

  // ---------------------------------------------------------------------
  // Pieces of Insert.

  /** The `update` entries above the current level all name the header. */
  function Raise(update: seq<int>, top: nat): (u: seq<int>)
    requires |update| <= top
    ensures |u| == top
    ensures forall j :: 0 <= j < |update| ==> u[j] == update[j]
    ensures forall j :: |update| <= j < top ==> u[j] == -1
  {
    update + seq(top - |update|, _ => -1)
  }

  /** The splice loop of Insert from level `i` up to `h - 1`: the new node's
      level-i link takes over the link of `u[i]`, which then references the
      new node (key `key`). Returns the list and the new node's links from
      level `i` on. */
  function Splice<V>(l: SkipList<V>, u: seq<int>, key: Key, i: nat, h: nat): (r: (SkipList<V>, seq<Option<Key>>))
    requires i <= h <= |u|
    requires forall j :: i <= j < h ==> IsCursor(l, u[j]) && Reaches(l, u[j], j)
    ensures SameShape(l, r.0)
    ensures |r.1| == h - i
    ensures forall j :: i <= j < h ==> r.1[j - i] == Link(l, u[j], j)
    ensures forall d, k: nat {:trigger Link(r.0, d, k)} :: IsCursor(l, d) && Reaches(l, d, k) ==>
      Link(r.0, d, k) == (if i <= k < h && u[k] == d then Some(key) else Link(l, d, k))
    decreases h - i
  {
    if i == h then (l, [])
    else
      var f := Link(l, u[i], i);
      var l1 := SetLink(l, u[i], i, Some(key));
      SameShapeReaches(l, l1);
      var rest := Splice(l1, u, key, i + 1, h);
      (rest.0, [f] + rest.1)
  }

  /** Lines 103-114 of Insert: the node at position `x` gets the update[0]
      cursor `u0` as backward link; its level-0 successor gets `x` as its
      backward link, or, when there is none, `x` becomes the tail. A
      successor key naming no node (impossible in a valid list) is skipped. */
  function RepairBackward<V>(l: SkipList<V>, u0: int, x: int): (l': SkipList<V>)
    requires IsCursor(l, u0) && 0 <= x < |l.nodes| && 0 < |l.nodes[x].forward|
    ensures l'.header == l.header && l'.length == l.length && l'.level == l.level
    ensures |l'.nodes| == |l.nodes|
    ensures forall j :: 0 <= j < |l.nodes| ==>
      && l'.nodes[j].key == l.nodes[j].key
      && l'.nodes[j].value == l.nodes[j].value
      && l'.nodes[j].forward == l.nodes[j].forward
    ensures l'.tail == if l.nodes[x].forward[0] == None then Some(l.nodes[x].key) else l.tail
    ensures forall j :: 0 <= j < |l.nodes| ==>
      l'.nodes[j].backward ==
        if j == Target(l, l.nodes[x].forward[0]) then Some(l.nodes[x].key)
        else if j == x then (if u0 == -1 then None else Some(l.nodes[u0].key))
        else l.nodes[j].backward
  {
    var back := if u0 == -1 then None else Some(l.nodes[u0].key);
    var l1 := l.(nodes := l.nodes[x := l.nodes[x].(backward := back)]);
    match l.nodes[x].forward[0]
    case None => l1.(tail := Some(l.nodes[x].key))
    case Some(k) =>
      var s := Locate(l1.nodes, k);
      if s < |l1.nodes| then
        l1.(nodes := l1.nodes[s := l1.nodes[s].(backward := Some(l.nodes[x].key))])
      else l1
  }

  /** The new node `x` takes position `p` of the arena, after the node (or
      header) it was spliced behind; the list counts one more node. */
  function Place<V>(l: SkipList<V>, p: int, x: Node<V>): (l': SkipList<V>)
    requires 0 <= p <= |l.nodes|
    ensures |l'.nodes| == |l.nodes| + 1 && l'.nodes[p] == x
    ensures forall j {:trigger l'.nodes[j]} :: 0 <= j < p ==> l'.nodes[j] == l.nodes[j]
    ensures forall j {:trigger l'.nodes[j]} :: p < j < |l'.nodes| ==> l'.nodes[j] == l.nodes[j - 1]
    ensures l'.header == l.header && l'.tail == l.tail && l'.level == l.level
    ensures l'.length == l.length + 1
  {
    l.(nodes := l.nodes[..p] + [x] + l.nodes[p..], length := l.length + 1)
  }

  /** `Insert(key, value)` with the drawn height `h`: overwrite the value of
      a node with an equal key, or splice in a new node of height `h`,
      raising the list's level to `h` when it is higher. */
  function Insert<V>(l: SkipList<V>, key: Key, value: V, h: int): (l': SkipList<V>)
    requires Valid(l) && 1 <= h <= MaxLevel
    ensures |l'.header| == MaxLevel
  {
    var update := Update(l, key);
    var q := Target(l, Link(l, update[0], 0));
    if q < |l.nodes| && SameKey(l.nodes[q].key, key) then
      var l1 := l.(nodes := l.nodes[q := l.nodes[q].(value := value)]);
      RepairBackward(l1, update[0], q)
    else
      var top := if h > l.level then h else l.level;
      var u := Raise(update, top);
      var sp := Splice(l.(level := top), u, key, 0, h);
      var x := NewSkipListNode(h, key, value).(forward := sp.1);
      RepairBackward(Place(sp.0, update[0] + 1, x), update[0], update[0] + 1)
  }

  // ---------------------------------------------------------------------
  // Lookups.

  /** The node with a key equal to `key`, if any. */
  function SearchNode<V>(l: SkipList<V>, key: Key): (r: Option<Node<V>>)
    requires Valid(l)
    ensures r.Some? ==> SameKey(r.value.key, key) && r.value in l.nodes
  {
    var x := Walk(l, -1, l.level - 1, key);
    match Deref(l, Link(l, x, 0))
    case Some(n) => if SameKey(n.key, key) then Some(n) else None
    case None => None
  }

  /** The value stored under `key`; Go's nil for a missing key is None. */
  function Search<V>(l: SkipList<V>, key: Key): (r: Option<V>)
    requires Valid(l)
    ensures r.Some? <==> SearchNode(l, key).Some?
  {
    match SearchNode(l, key)
    case Some(n) => Some(n.value)
    case None => None
  }

  /** The first node whose key is not less than `key`, if any. */
  function LowerBoundNode<V>(l: SkipList<V>, key: Key): (r: Option<Node<V>>)
    requires Valid(l)
    ensures r.Some? ==> r.value in l.nodes
  {
    Deref(l, Link(l, Walk(l, -1, l.level - 1, key), 0))
  }

  /** `LowerBoundNode` steered by a caller ordering `fn` instead of `Less`. */
  function LowerBoundNodeFn<V>(l: SkipList<V>, key: Key, fn: (Key, Key) -> bool): (r: Option<Node<V>>)
    requires Valid(l)
    ensures r.Some? ==> r.value in l.nodes
  {
    Deref(l, Link(l, WalkBy(l, -1, l.level - 1, key, fn), 0))
  }

  // ---------------------------------------------------------------------
  // Pieces of DeleteNode.

  /** The first level from `i` on where the unlink loop of DeleteNode stops:
      `u[j]`'s level-j link does not reference `x`, or the levels run out. */
  function Stop<V>(l: SkipList<V>, u: seq<int>, x: Key, i: nat): (s: nat)
    requires i <= |u|
    requires forall j :: i <= j < |u| ==> IsCursor(l, u[j]) && Reaches(l, u[j], j)
    ensures i <= s <= |u|
    ensures forall j :: i <= j < s ==> Link(l, u[j], j) == Some(x)
    ensures s < |u| ==> Link(l, u[s], s) != Some(x)
    decreases |u| - i
  {
    if i == |u| || Link(l, u[i], i) != Some(x) then i else Stop(l, u, x, i + 1)
  }

  /** The unlink loop of DeleteNode from level `i`: while `u[i]`'s level-i
      link references `x`, it takes over `x`'s level-i link. No link above
      `x`'s height references `x`, as Go's indexing of `x.level[i]` needs. */
  function Unlink<V>(l: SkipList<V>, u: seq<int>, x: Node<V>, i: nat): (l': SkipList<V>)
    requires i <= |u|
    requires forall j :: i <= j < |u| ==> IsCursor(l, u[j]) && Reaches(l, u[j], j)
    requires i <= |x.forward|
    requires forall j :: i <= j < |u| && |x.forward| <= j ==> Link(l, u[j], j) != Some(x.key)
    ensures SameShape(l, l')
    ensures Stop(l, u, x.key, i) <= |x.forward|
    ensures forall d, k: nat {:trigger Link(l', d, k)} :: IsCursor(l, d) && Reaches(l, d, k) ==>
      Link(l', d, k) == (if i <= k < Stop(l, u, x.key, i) && u[k] == d then x.forward[k] else Link(l, d, k))
    decreases |u| - i
  {
    if i == |u| || Link(l, u[i], i) != Some(x.key) then l
    else
      var l1 := SetLink(l, u[i], i, x.forward[i]);
      SameShapeReaches(l, l1);
      Unlink(l1, u, x, i + 1)
  }

  /** The level-shrinking loop of DeleteNode: the highest level, at most
      `level`, whose header link is set, or 1. */
  function Shrink(header: seq<Option<Key>>, level: int): (top: int)
    requires 1 <= level <= |header|
    ensures 1 <= top <= level
    ensures forall i :: top <= i < level ==> header[i] == None
    ensures top == 1 || header[top - 1].Some?
    decreases level
  {
    if level > 1 && header[level - 1] == None then Shrink(header, level - 1) else level
  }

  /** The removed node leaves position `q` of the arena. */
  function Drop<V>(l: SkipList<V>, q: int): (l': SkipList<V>)
    requires 0 <= q < |l.nodes|
    ensures |l'.nodes| == |l.nodes| - 1
    ensures forall j {:trigger l'.nodes[j]} :: 0 <= j < q ==> l'.nodes[j] == l.nodes[j]
    ensures forall j {:trigger l'.nodes[j]} :: q <= j < |l'.nodes| ==> l'.nodes[j] == l.nodes[j + 1]
    ensures l'.header == l.header && l'.tail == l.tail && l'.level == l.level && l'.length == l.length
  {
    l.(nodes := l.nodes[..q] + l.nodes[q + 1..])
  }

  /** Lines 182-186 of DeleteNode: the removed node's level-0 successor takes
      over its backward link, or, when there is none, its backward link
      becomes the tail. A successor key naming no node is skipped. */
  function RepairAfterRemove<V>(l: SkipList<V>, x: Node<V>): (l': SkipList<V>)
    requires 0 < |x.forward|
    ensures l'.header == l.header && l'.length == l.length && l'.level == l.level
    ensures |l'.nodes| == |l.nodes|
    ensures forall j :: 0 <= j < |l.nodes| ==>
      && l'.nodes[j].key == l.nodes[j].key
      && l'.nodes[j].value == l.nodes[j].value
      && l'.nodes[j].forward == l.nodes[j].forward
    ensures l'.tail == if x.forward[0] == None then x.backward else l.tail
    ensures forall j :: 0 <= j < |l.nodes| ==>
      l'.nodes[j].backward == if j == Target(l, x.forward[0]) then x.backward else l.nodes[j].backward
  {
    match x.forward[0]
    case None => l.(tail := x.backward)
    case Some(k) =>
      var s := Locate(l.nodes, k);
      if s < |l.nodes| then l.(nodes := l.nodes[s := l.nodes[s].(backward := x.backward)]) else l
  }

  /** `DeleteNode(key)`: unlink the node with an equal key from every level,
      repair the backward link or the tail, shrink the level and decrement
      the length; returns the removed node, or None (and the list unchanged)
      when no key is equal. */
  function DeleteNode<V>(l: SkipList<V>, key: Key): (r: (SkipList<V>, Option<Node<V>>))
    requires Valid(l)
    ensures r.1.None? ==> r.0 == l
    ensures r.1.Some? ==> SameKey(r.1.value.key, key) && r.1.value in l.nodes
  {
    var update := Update(l, key);
    var q := Target(l, Link(l, update[0], 0));
    if q < |l.nodes| && SameKey(l.nodes[q].key, key) then
      var x := l.nodes[q];
      UnlinkAllowed(l, update, q);
      var l1 := Unlink(l, update, x, 0);
      var l2 := Drop(l1, q);
      var l3 := RepairAfterRemove(l2, x);
      var l' := l3.(level := Shrink(l3.header, l3.level), length := l3.length - 1);
      (l', Some(x))
    else
      (l, None)
  }

  /** No link of the `update` array above a node's height references it. */
  lemma {:induction false} UnlinkAllowed<V>(l: SkipList<V>, update: seq<int>, q: int)
    requires Valid(l) && 0 <= q < |l.nodes| && update == Update(l, l.nodes[q].key)
    ensures forall j :: 0 <= j < |update| && |l.nodes[q].forward| <= j ==> Link(l, update[j], j) != Some(l.nodes[q].key)
  {
    forall j | 0 <= j < |update| && |l.nodes[q].forward| <= j
      ensures Link(l, update[j], j) != Some(l.nodes[q].key)
    {
      if Link(l, update[j], j) == Some(l.nodes[q].key) {
        LinkToNode(l, update[j], j, q);
      }
    }
  }

  // ---------------------------------------------------------------------
  // Accessors.

  function IsEmpty<V>(l: SkipList<V>): (b: bool)
    requires Valid(l)
    ensures b <==> l.nodes == []
  {
    l.length == 0
  }

  /** The first node: the header's level-0 link. */
  function First<V>(l: SkipList<V>): (r: Option<Node<V>>)
    requires Valid(l)
    ensures r.Some? ==> r.value in l.nodes
  {
    Deref(l, l.header[0])
  }

  function Length<V>(l: SkipList<V>): (n: int)
    requires Valid(l)
    ensures n == |l.nodes|
  {
    l.length
  }

  /** The node after `n` on level 0. */
  function Next<V>(l: SkipList<V>, n: Node<V>): (r: Option<Node<V>>)
    requires 0 < |n.forward|
    ensures r.Some? ==> r.value in l.nodes
  {
    Deref(l, n.forward[0])
  }

  /** The node before `n` on level 0. */
  function Prev<V>(l: SkipList<V>, n: Node<V>): (r: Option<Node<V>>)
    ensures r.Some? ==> r.value in l.nodes
  {
    Deref(l, n.backward)
  }
}
