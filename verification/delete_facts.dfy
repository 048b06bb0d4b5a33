/** What DeleteNode promises on a valid list, as an operation on the entry
    sequence: a present key loses its entry, an absent key changes nothing,
    and Search sees the change. */
module DeleteFacts {
  import opened Options
  import opened Order
  import opened Layout
  import opened Engine
  import opened Canon
  import opened Contents
  import opened Queries
  import opened DeleteProof

  /** Deleting a key present at position `q` keeps the list valid, returns
      that node, takes its entry away, counts one node less and lowers the
      level to the tallest remaining node (never raising it). */
  lemma {:induction false} DeletePresentFacts<V>(l: SkipList<V>, key: Key, q: int)
    requires Valid(l) && 0 <= q < |l.nodes| && SameKey(l.nodes[q].key, key)
    ensures var r := DeleteNode(l, key);
      && Valid(r.0)
      && r.1 == Some(l.nodes[q])
      && Entries(r.0.nodes) == RemoveAt(Entries(l.nodes), q)
      && r.0.length == l.length - 1
      && r.0.level == TopLevel(RemoveAt(Entries(l.nodes), q))
      && r.0.level <= l.level
  {
    var es := Entries(l.nodes);
    DeletePresent(l, key, q);
    EntriesWellFormed(l);
    RemoveAtWellFormed(es, q);
    BuildValid(RemoveAt(es, q));
    RemainingBelowLevel(l, q);
  }

  /** Deleting a key that no node holds returns nil and leaves the list as
      it was. */
  lemma {:induction false} DeleteAbsentFacts<V>(l: SkipList<V>, key: Key)
    requires Valid(l) && !HasKey(l.nodes, key)
    ensures DeleteNode(l, key) == (l, None)
  {
  }

  /** DeleteNode keeps the representation invariant. */
  lemma {:induction false} DeleteValid<V>(l: SkipList<V>, key: Key)
    requires Valid(l)
    ensures Valid(DeleteNode(l, key).0)
  {
    if q :| 0 <= q < |l.nodes| && SameKey(l.nodes[q].key, key) {
      DeletePresentFacts(l, key, q);
    } else {
      DeleteAbsentFacts(l, key);
    }
  }

  /** After DeleteNode, Search finds nothing under `key`, and every other
      key finds what it found before. */
  lemma {:induction false} SearchAfterDelete<V>(l: SkipList<V>, key: Key)
    requires Valid(l)
    ensures Valid(DeleteNode(l, key).0)
    ensures Search(DeleteNode(l, key).0, key) == None
    ensures forall k :: !SameKey(key, k) ==> Search(DeleteNode(l, key).0, k) == Search(l, k)
  {
    DeleteValid(l, key);
    forall k
      ensures Search(DeleteNode(l, key).0, k) == if SameKey(key, k) then None else Search(l, k)
    {
      SearchAfterDeleteAt(l, key, k);
    }
  }

  /** SearchAfterDelete for a single probe key `k`. */
  lemma {:induction false} SearchAfterDeleteAt<V>(l: SkipList<V>, key: Key, k: Key)
    requires Valid(l)
    ensures Valid(DeleteNode(l, key).0)
      && Search(DeleteNode(l, key).0, k) == if SameKey(key, k) then None else Search(l, k)
  {
    if q :| 0 <= q < |l.nodes| && SameKey(l.nodes[q].key, key) {
      DeletePresent(l, key, q);
      SearchOfRemoved(l, q, k);
    } else {
      DeleteAbsentFacts(l, key);
      if SameKey(key, k) {
        SearchFinds(l, k);
      }
    }
  }

  /** Search in the canonical list of the remaining entries. */
  lemma {:induction false} SearchOfRemoved<V>(l: SkipList<V>, q: int, k: Key)
    requires Valid(l) && 0 <= q < |l.nodes|
    ensures var b := Build(RemoveAt(Entries(l.nodes), q));
      Valid(b) && Search(b, k) == if SameKey(l.nodes[q].key, k) then None else Search(l, k)
  {
    var es := Entries(l.nodes);
    EntriesWellFormed(l);
    RemoveAtWellFormed(es, q);
    BuildValid(RemoveAt(es, q));
    SearchIsValueOf(l, k);
    SearchIsValueOf(Build(RemoveAt(es, q)), k);
    ValueOfRemoveAt(es, q, k);
  }
}
