/** The top-down descent every operation of the skip list begins with: from
    the header at the list's current level down to level 0, advance along
    each level while the next node's key comes before the target, and
    remember where each level was left (the `update` array).

    The variant of the lower-bound search that takes a caller-supplied
    ordering has its own copy of the descent, as in the source. */
module Descent {
  import opened Options
  import opened Order
  import opened Levels
  import opened Layout

  /** One level of the descent: the inner `for` loop. */
  function ScanLevel<V>(l: SkipList<V>, c: int, i: nat, target: Key): (x: int)
    requires Valid(l) && IsCursor(l, c) && Reaches(l, c, i)
    ensures c <= x < |l.nodes| && Reaches(l, x, i)
    decreases |l.nodes| - c
  {
    match Link(l, c, i)
    case None => c
    case Some(k) =>
      if Less(k, target) then
        StepForward(l, c, i);
        ScanLevel(l, Locate(l.nodes, k), i, target)
      else c
  }

  /** Levels `i` down to 0, starting from cursor `c`; element j of the result
      is where level j was left. */
  function DescendFrom<V>(l: SkipList<V>, c: int, i: nat, target: Key): (u: seq<int>)
    requires Valid(l) && IsCursor(l, c) && Reaches(l, c, i)
    ensures |u| == i + 1
    ensures forall j :: 0 <= j <= i ==> IsCursor(l, u[j]) && Reaches(l, u[j], j)
    decreases i
  {
    var x := ScanLevel(l, c, i, target);
    if i == 0 then [x] else DescendFrom(l, x, i - 1, target) + [x]
  }

  /** The `update` array: the full descent from the header at the top level. */
  function Update<V>(l: SkipList<V>, target: Key): (u: seq<int>)
    requires Valid(l)
    ensures |u| == l.level
    ensures forall j :: 0 <= j < l.level ==> IsCursor(l, u[j]) && Reaches(l, u[j], j)
  {
    DescendFrom(l, -1, l.level - 1, target)
  }

  /** The descent of the lookup operations, which keep no `update` array:
      only the cursor reached at level 0 matters. */
  function Walk<V>(l: SkipList<V>, c: int, i: nat, target: Key): (x: int)
    requires Valid(l) && IsCursor(l, c) && Reaches(l, c, i)
    ensures c <= x < |l.nodes|
    decreases i
  {
    var x := ScanLevel(l, c, i, target);
    if i == 0 then x else Walk(l, x, i - 1, target)
  }

  /** The descent of the lower-bound search with a caller-supplied ordering
      `fn`: it advances while `fn(next key, target)` holds. */
  function ScanLevelBy<V>(l: SkipList<V>, c: int, i: nat, target: Key, fn: (Key, Key) -> bool): (x: int)
    requires Valid(l) && IsCursor(l, c) && Reaches(l, c, i)
    ensures c <= x < |l.nodes| && Reaches(l, x, i)
    decreases |l.nodes| - c
  {
    match Link(l, c, i)
    case None => c
    case Some(k) =>
      if fn(k, target) then
        StepForward(l, c, i);
        ScanLevelBy(l, Locate(l.nodes, k), i, target, fn)
      else c
  }

  /** The full descent steered by `fn`, from cursor `c` at level `i` down to 0. */
  function WalkBy<V>(l: SkipList<V>, c: int, i: nat, target: Key, fn: (Key, Key) -> bool): (x: int)
    requires Valid(l) && IsCursor(l, c) && Reaches(l, c, i)
    ensures c <= x < |l.nodes|
    decreases i
  {
    var x := ScanLevelBy(l, c, i, target, fn);
    if i == 0 then x else WalkBy(l, x, i - 1, target, fn)
  }

  // ---------------------------------------------------------------------
  // What the descent finds when it compares with the key order.

  /** The cursor `x` is the last one on the level-i chain whose key is less
      than `t`: it is the header or its key is less, and the next level-i
      node (if any) is not less. */
  ghost predicate LastBefore<V>(l: SkipList<V>, x: int, i: nat, t: Key)
    requires Valid(l) && IsCursor(l, x)
  {
    var r := Rank(l.nodes, t);
    && Reaches(l, x, i)
    && x < r
    && r <= NextAt(Heights(l.nodes), x, i)
  }

  lemma {:induction false} ScanLevelFinds<V>(l: SkipList<V>, c: int, i: nat, t: Key)
    requires Valid(l) && IsCursor(l, c) && Reaches(l, c, i)
    requires c < Rank(l.nodes, t)
    ensures LastBefore(l, ScanLevel(l, c, i, t), i, t)
    decreases |l.nodes| - c
  {
    var hs := Heights(l.nodes);
    var n := NextAt(hs, c, i);
    assert Link(l, c, i) == KeyAt(l.nodes, n);
    match Link(l, c, i)
    case None =>
    case Some(k) =>
      StepForward(l, c, i);
      if Less(k, t) {
        ScanLevelFinds(l, n, i, t);
      }
  }

  lemma {:induction false} DescendFromFinds<V>(l: SkipList<V>, c: int, i: nat, t: Key)
    requires Valid(l) && IsCursor(l, c) && Reaches(l, c, i)
    requires c < Rank(l.nodes, t)
    ensures forall j :: 0 <= j <= i ==> LastBefore(l, DescendFrom(l, c, i, t)[j], j, t)
    decreases i, 1
  {
    if i == 0 {
      ScanLevelFinds(l, c, 0, t);
    } else {
      DescendStepFinds(l, c, i, t);
    }
  }

  lemma {:induction false} DescendStepFinds<V>(l: SkipList<V>, c: int, i: nat, t: Key)
    requires Valid(l) && IsCursor(l, c) && Reaches(l, c, i) && 0 < i
    requires c < Rank(l.nodes, t)
    ensures forall j :: 0 <= j <= i ==> LastBefore(l, DescendFrom(l, c, i, t)[j], j, t)
    decreases i, 0
  {
    var x := ScanLevel(l, c, i, t);
    var u := DescendFrom(l, c, i, t);
    ScanLevelFinds(l, c, i, t);
    var below := DescendFrom(l, x, i - 1, t);
    DescendFromFinds(l, x, i - 1, t);
    assert u == below + [x];
    forall j | 0 <= j <= i
      ensures LastBefore(l, u[j], j, t)
    {
      if j < i {
        assert u[j] == below[j];
      } else {
        assert u[j] == x;
      }
    }
  }

  /** Every entry of the `update` array is the attachment point for `t` on
      its level; in particular the level-0 entry is the last node whose key
      is less than `t` (or the header). */
  lemma {:induction false} UpdateFinds<V>(l: SkipList<V>, t: Key)
    requires Valid(l)
    ensures var u := Update(l, t);
      && (forall j :: 0 <= j < l.level ==> LastBefore(l, u[j], j, t))
      && u[0] == Rank(l.nodes, t) - 1
  {
    var u := Update(l, t);
    DescendFromFinds(l, -1, l.level - 1, t);
    assert forall j :: 0 <= j < l.level ==> LastBefore(l, u[j], j, t);
    NextAtZero(l, u[0]);
  }

  /** The lookup descent from a cursor before `t` ends on the last node whose
      key is less than `t`, or on the header. */
  lemma {:induction false} WalkFinds<V>(l: SkipList<V>, c: int, i: nat, t: Key)
    requires Valid(l) && IsCursor(l, c) && Reaches(l, c, i)
    requires c < Rank(l.nodes, t)
    ensures Walk(l, c, i, t) == Rank(l.nodes, t) - 1
    decreases i
  {
    var x := ScanLevel(l, c, i, t);
    ScanLevelFinds(l, c, i, t);
    if i == 0 {
      NextAtZero(l, x);
    } else {
      WalkFinds(l, x, i - 1, t);
    }
  }

  /** A caller ordering that agrees with `Less` on every pair of keys steers
      the descent exactly as `Less` does. */
  lemma {:induction false} ScanLevelByAgrees<V>(l: SkipList<V>, c: int, i: nat, t: Key, fn: (Key, Key) -> bool)
    requires Valid(l) && IsCursor(l, c) && Reaches(l, c, i)
    requires forall a, b :: fn(a, b) == Less(a, b)
    ensures ScanLevelBy(l, c, i, t, fn) == ScanLevel(l, c, i, t)
    decreases |l.nodes| - c
  {
    match Link(l, c, i)
    case None =>
    case Some(k) =>
      StepForward(l, c, i);
      if Less(k, t) {
        ScanLevelByAgrees(l, Locate(l.nodes, k), i, t, fn);
      }
  }

  lemma {:induction false} WalkByAgrees<V>(l: SkipList<V>, c: int, i: nat, t: Key, fn: (Key, Key) -> bool)
    requires Valid(l) && IsCursor(l, c) && Reaches(l, c, i)
    requires forall a, b :: fn(a, b) == Less(a, b)
    ensures WalkBy(l, c, i, t, fn) == Walk(l, c, i, t)
    decreases i
  {
    var x := ScanLevel(l, c, i, t);
    ScanLevelByAgrees(l, c, i, t, fn);
    if i > 0 {
      WalkByAgrees(l, x, i - 1, t, fn);
      assert WalkBy(l, c, i, t, fn) == WalkBy(l, x, i - 1, t, fn);
      assert Walk(l, c, i, t) == Walk(l, x, i - 1, t);
    }
  }
}
