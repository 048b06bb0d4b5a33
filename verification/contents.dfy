/** The skip list as an ordered map: the value an entry sequence stores
    under a key, defined by a plain scan that knows nothing of links, and
    how that value changes when an entry is added, overwritten or taken
    away. The lookups of the list are shown to agree with this scan. */
module Contents {
  import opened Options
  import opened Order
  import opened Layout
  import opened Canon

  /** The value of the first entry, from position `s` on, whose key is
      equal to `k`. */
  function ValueFrom<V>(es: seq<Entry<V>>, k: Key, s: nat): (r: Option<V>)
    requires s <= |es|
    ensures r.None? <==> forall j :: s <= j < |es| ==> !SameKey(es[j].key, k)
    ensures r.Some? ==> exists j :: s <= j < |es| && SameKey(es[j].key, k) && r.value == es[j].value
    decreases |es| - s
  {
    if s == |es| then None
    else if SameKey(es[s].key, k) then Some(es[s].value)
    else ValueFrom(es, k, s + 1)
  }

  /** The value stored under `k`, or None when no key is equal. */
  function ValueOf<V>(es: seq<Entry<V>>, k: Key): (r: Option<V>)
    ensures r.None? <==> forall j :: 0 <= j < |es| ==> !SameKey(es[j].key, k)
    ensures r.Some? ==> exists j :: 0 <= j < |es| && SameKey(es[j].key, k) && r.value == es[j].value
  {
    ValueFrom(es, k, 0)
  }

  /** In well-formed entries a key occurs at most once, so the entry with an
      equal key determines the value. */
  lemma {:induction false} ValueOfAt<V>(es: seq<Entry<V>>, k: Key, j: int)
    requires WellFormed(es) && 0 <= j < |es| && SameKey(es[j].key, k)
    ensures ValueOf(es, k) == Some(es[j].value)
  {
  }

  /** After adding entry `e`, its key maps to its value and every other key
      to what it mapped to before. */
  lemma {:induction false} ValueOfInsertAt<V>(es: seq<Entry<V>>, r: int, e: Entry<V>, k: Key)
    requires 0 <= r <= |es| && WellFormed(InsertAt(es, r, e))
    ensures ValueOf(InsertAt(es, r, e), k) == if SameKey(e.key, k) then Some(e.value) else ValueOf(es, k)
  {
    var es' := InsertAt(es, r, e);
    assert forall j {:trigger es'[j]} :: 0 <= j < r ==> es'[j] == es[j];
    assert es'[r] == e;
    assert forall j {:trigger es'[j]} :: r < j < |es'| ==> es'[j] == es[j - 1];
    if SameKey(e.key, k) {
      ValueOfAt(es', k, r);
    } else if j :| 0 <= j < |es| && SameKey(es[j].key, k) {
      WellFormedOfInsertAt(es, r, e);
      ValueOfAt(es, k, j);
      ValueOfAt(es', k, if j < r then j else j + 1);
    } else {
      assert forall j :: 0 <= j < |es'| ==> !SameKey(es'[j].key, k);
    }
  }

  /** The entries around an added one are well-formed themselves. */
  lemma {:induction false} WellFormedOfInsertAt<V>(es: seq<Entry<V>>, r: int, e: Entry<V>)
    requires 0 <= r <= |es| && WellFormed(InsertAt(es, r, e))
    ensures WellFormed(es)
  {
    var es' := InsertAt(es, r, e);
    assert forall j {:trigger es[j]} :: 0 <= j < r ==> es[j] == es'[j];
    assert forall j {:trigger es[j]} :: r <= j < |es| ==> es[j] == es'[j + 1];
    forall j, k | 0 <= j < k < |es|
      ensures Less(es[j].key, es[k].key)
    {
      var j' := if j < r then j else j + 1;
      var k' := if k < r then k else k + 1;
      assert Less(es'[j'].key, es'[k'].key);
    }
  }

  /** After overwriting the value at position `q`, that key maps to the new
      value and every other key to what it mapped to before. */
  lemma {:induction false} ValueOfOverwrite<V>(es: seq<Entry<V>>, q: int, v: V, k: Key)
    requires WellFormed(es) && 0 <= q < |es|
    ensures ValueOf(Overwrite(es, q, v), k) == if SameKey(es[q].key, k) then Some(v) else ValueOf(es, k)
  {
    var es' := Overwrite(es, q, v);
    OverwriteShape(es, q, v);
    if SameKey(es[q].key, k) {
      ValueOfAt(es', k, q);
    } else if j :| 0 <= j < |es| && SameKey(es[j].key, k) {
      ValueOfAt(es, k, j);
      ValueOfAt(es', k, j);
    } else {
      assert forall j :: 0 <= j < |es'| ==> !SameKey(es'[j].key, k);
    }
  }

  /** After taking away the entry at position `q`, its key maps to nothing
      and every other key to what it mapped to before. */
  lemma {:induction false} ValueOfRemoveAt<V>(es: seq<Entry<V>>, q: int, k: Key)
    requires WellFormed(es) && 0 <= q < |es|
    ensures ValueOf(RemoveAt(es, q), k) == if SameKey(es[q].key, k) then None else ValueOf(es, k)
  {
    var es' := RemoveAt(es, q);
    assert forall j {:trigger es'[j]} :: 0 <= j < q ==> es'[j] == es[j];
    assert forall j {:trigger es'[j]} :: q <= j < |es'| ==> es'[j] == es[j + 1];
    RemoveAtWellFormed(es, q);
    if SameKey(es[q].key, k) {
      forall j | 0 <= j < |es'|
        ensures !SameKey(es'[j].key, k)
      {
        if j < q {
          assert Less(es[j].key, es[q].key);
        } else {
          assert Less(es[q].key, es[j + 1].key);
        }
      }
    } else if j :| 0 <= j < |es| && SameKey(es[j].key, k) {
      ValueOfAt(es, k, j);
      ValueOfAt(es', k, if j < q then j else j - 1);
    } else {
      assert forall j :: 0 <= j < |es'| ==> !SameKey(es'[j].key, k);
    }
  }
}
