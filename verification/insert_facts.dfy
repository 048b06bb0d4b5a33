/** What Insert promises on a valid list, as an operation on the entry
    sequence: an absent key gets a new entry at its rank, a present key
    gets its value overwritten, and Search sees the change. */
module InsertFacts {
  import opened Options
  import opened Order
  import opened Levels
  import opened Layout
  import opened Engine
  import opened Canon
  import opened Contents
  import opened Queries
  import opened InsertProof

  /** On a canonical list the backward-link repair changes nothing. */
  lemma {:induction false} RepairBackwardIdle<V>(es: seq<Entry<V>>, x: int)
    requires WellFormed(es) && 0 <= x < |es|
    ensures 0 < |Build(es).nodes[x].forward| && RepairBackward(Build(es), x - 1, x) == Build(es)
  {
    var b := Build(es);
    forall j | 0 <= j < |es|
      ensures NodeMatches(b.nodes[j], es, j)
    {
    }
    RepairBackwardBuild(b, es, x);
  }

  /** For a present key Insert overwrites the value of the node found and
      repairs the backward links around it. */
  lemma {:induction false} InsertPresentUnfold<V>(l: SkipList<V>, key: Key, value: V, h: int, q: int)
    requires Valid(l) && 1 <= h <= MaxLevel
    requires 0 <= q < |l.nodes| && SameKey(l.nodes[q].key, key)
    ensures var l1 := l.(nodes := l.nodes[q := l.nodes[q].(value := value)]);
      && 0 < |l1.nodes[q].forward|
      && Insert(l, key, value, h) == RepairBackward(l1, q - 1, q)
  {
    EqualKeyAtRank(l.nodes, key, q);
    InsertTarget(l, key);
  }

  /** Inserting a key that is present at position `q` overwrites that
      entry's value and changes nothing else. */
  lemma {:induction false} InsertPresent<V>(l: SkipList<V>, key: Key, value: V, h: int, q: int)
    requires Valid(l) && 1 <= h <= MaxLevel
    requires 0 <= q < |l.nodes| && SameKey(l.nodes[q].key, key)
    ensures Insert(l, key, value, h) == Build(Overwrite(Entries(l.nodes), q, value))
  {
    InsertPresentUnfold(l, key, value, h, q);
    OverwriteRepaired(l, q, value);
  }

  lemma {:induction false} OverwriteRepaired<V>(l: SkipList<V>, q: int, value: V)
    requires Valid(l) && 0 <= q < |l.nodes|
    ensures var l1 := l.(nodes := l.nodes[q := l.nodes[q].(value := value)]);
      && 0 < |l1.nodes[q].forward|
      && RepairBackward(l1, q - 1, q) == Build(Overwrite(Entries(l.nodes), q, value))
  {
    var es := Entries(l.nodes);
    ValidIsBuild(l);
    BuildOverwrite(es, q, value);
    OverwriteShape(es, q, value);
    RepairBackwardIdle(Overwrite(es, q, value), q);
  }

  // ---------------------------------------------------------------------
  // What Insert promises.

  /** Insert of an absent key keeps the list valid, adds the entry (key,
      value, `h`) between the keys less than `key` and the greater ones,
      counts one more node and raises the level to `h` when it was lower. */
  lemma {:induction false} InsertAbsentFacts<V>(l: SkipList<V>, key: Key, value: V, h: int)
    requires Valid(l) && 1 <= h <= MaxLevel && !HasKey(l.nodes, key)
    ensures var l' := Insert(l, key, value, h);
      && Valid(l')
      && Entries(l'.nodes) == InsertAt(Entries(l.nodes), Rank(l.nodes, key), Entry(key, value, h))
      && l'.length == l.length + 1
      && l'.level == (if h > l.level then h else l.level)
  {
    InsertAbsent(l, key, value, h);
    GrownWellFormed(l, key, value, h);
    BuildValid(Grown(l, key, value, h));
    GrownTop(l, key, value, h);
  }

  /** Insert of a key present at position `q` keeps the list valid and
      replaces that entry's value; length and level stay. */
  lemma {:induction false} InsertPresentFacts<V>(l: SkipList<V>, key: Key, value: V, h: int, q: int)
    requires Valid(l) && 1 <= h <= MaxLevel
    requires 0 <= q < |l.nodes| && SameKey(l.nodes[q].key, key)
    ensures var l' := Insert(l, key, value, h);
      && Valid(l')
      && Entries(l'.nodes) == Overwrite(Entries(l.nodes), q, value)
      && l'.length == l.length && l'.level == l.level
  {
    var es := Entries(l.nodes);
    InsertPresent(l, key, value, h, q);
    EntriesWellFormed(l);
    OverwriteShape(es, q, value);
    BuildValid(Overwrite(es, q, value));
    LevelIsTop(l);
  }

  /** Insert keeps the representation invariant. */
  lemma {:induction false} InsertValid<V>(l: SkipList<V>, key: Key, value: V, h: int)
    requires Valid(l) && 1 <= h <= MaxLevel
    ensures Valid(Insert(l, key, value, h))
  {
    if q :| 0 <= q < |l.nodes| && SameKey(l.nodes[q].key, key) {
      InsertPresentFacts(l, key, value, h, q);
    } else {
      InsertAbsentFacts(l, key, value, h);
    }
  }

  /** After Insert, Search finds the inserted value under `key`, and every
      other key finds what it found before. */
  lemma {:induction false} SearchAfterInsert<V>(l: SkipList<V>, key: Key, value: V, h: int)
    requires Valid(l) && 1 <= h <= MaxLevel
    ensures Valid(Insert(l, key, value, h))
    ensures Search(Insert(l, key, value, h), key) == Some(value)
    ensures forall k :: !SameKey(key, k) ==> Search(Insert(l, key, value, h), k) == Search(l, k)
  {
    InsertValid(l, key, value, h);
    forall k
      ensures Search(Insert(l, key, value, h), k) == if SameKey(key, k) then Some(value) else Search(l, k)
    {
      SearchAfterInsertAt(l, key, value, h, k);
    }
  }

  lemma {:induction false} SearchAfterInsertAt<V>(l: SkipList<V>, key: Key, value: V, h: int, k: Key)
    requires Valid(l) && 1 <= h <= MaxLevel
    ensures Valid(Insert(l, key, value, h))
      && Search(Insert(l, key, value, h), k) == if SameKey(key, k) then Some(value) else Search(l, k)
  {
    var es := Entries(l.nodes);
    EntriesWellFormed(l);
    if q :| 0 <= q < |l.nodes| && SameKey(l.nodes[q].key, key) {
      InsertPresent(l, key, value, h, q);
      SearchOfOverwrite(l, key, value, q, k);
    } else {
      InsertAbsent(l, key, value, h);
      SearchOfGrown(l, key, value, h, k);
    }
  }

  /** Search in the canonical list of the overwritten entries. */
  lemma {:induction false} SearchOfOverwrite<V>(l: SkipList<V>, key: Key, value: V, q: int, k: Key)
    requires Valid(l) && 0 <= q < |l.nodes| && SameKey(l.nodes[q].key, key)
    ensures var b := Build(Overwrite(Entries(l.nodes), q, value));
      Valid(b) && Search(b, k) == if SameKey(key, k) then Some(value) else Search(l, k)
  {
    var es := Entries(l.nodes);
    EntriesWellFormed(l);
    OverwriteShape(es, q, value);
    BuildValid(Overwrite(es, q, value));
    SearchIsValueOf(l, k);
    SearchIsValueOf(Build(Overwrite(es, q, value)), k);
    ValueOfOverwrite(es, q, value, k);
  }

  /** Search in the canonical list of the grown entries. */
  lemma {:induction false} SearchOfGrown<V>(l: SkipList<V>, key: Key, value: V, h: int, k: Key)
    requires Valid(l) && 1 <= h <= MaxLevel && !HasKey(l.nodes, key)
    ensures var b := Build(Grown(l, key, value, h));
      Valid(b) && Search(b, k) == if SameKey(key, k) then Some(value) else Search(l, k)
  {
    var es := Entries(l.nodes);
    GrownWellFormed(l, key, value, h);
    BuildValid(Grown(l, key, value, h));
    SearchIsValueOf(l, k);
    SearchIsValueOf(Build(Grown(l, key, value, h)), k);
    ValueOfInsertAt(es, Rank(l.nodes, key), Entry(key, value, h), k);
  }
}
