# Skip list of chenhuaying/container, modelled in Dafny

This project models the skip-list engine of `skiplist/skiplist.go`: an
ordered map with unique keys. Its parts are:

- forward links on several levels from a header sentinel;
- a level-0 backward link on every node;
- a tail reference;
- a length count;
- the current level, which is the highest level in use.

The model follows the Go methods step by step:

- the top-down descent that records the `update` array;
- the splice loop of `Insert`, and its overwrite branch;
- the unlink loop, backward/tail repair and level-shrinking loop of `DeleteNode`;
- the lookups `SearchNode`, `Search`, `LowerBoundNode` and `LowerBoundNodeFn`;
- the accessors `IsEmpty`, `First`, `Length`, `Next` and `Prev`.

Each operation is then proved to act on the list's abstract content as an
ordered map should.

## How the list is represented

- **Keys** are `int`, ordered by `<` (`Order.Less`). Go's `x.key == key` becomes `Order.SameKey`: neither key is less than the other.
- **Nodes and links.** A node is identified by its key, because keys are unique. So every pointer the Go code holds is held as an `Option<Key>`: `forward[i]`, `backword`, `tail`, and the header's links.
- **Arena.** The real nodes live in a sequence `nodes` in level-0 order. The header is its `MaxLevel` forward links. A cursor is `-1` for the header or an arena position.
- **Representation invariant.** `Layout.Valid` holds when:
  - heights lie in `[1, MaxLevel]`;
  - keys strictly ascend;
  - every link at every level names the next node tall enough for that level (`Layout.NextAt`), or nil;
  - backward links name the level-0 predecessor;
  - `tail` names the last node;
  - `length` is the number of nodes;
  - `level` is the highest level with a header link, or 1.

  Because every level-i link points to the next node of height above `i` in the same arena, each level-i chain is a subsequence of the level-0 chain by construction.
- **Abstract content.** This is the sequence of `Entry(key, value, height)` (`Layout.Entries`). `Canon.Build` gives the one list that satisfies the invariant with a given entry sequence: `Canon.BuildValid` proves it valid and `Canon.ValidIsBuild` proves it unique. So `Insert` and `DeleteNode` are each proved equal to `Build` of the expected new entries.
- **Reference lookup.** `Contents.ValueOf` is a plain scan of the entries. It is the partner that `Search` is checked against.
- **Random height.** The height an insertion draws is the parameter `h` of `Engine.Insert`, with `1 <= h <= MaxLevel`. So every property holds for every possible draw. `Levels.RandomLevel` models the generator loop with the random draws as an input stream.

## Model

| member | source | states |
|---|---|---|
| Levels.RandomLevel | skiplist/skiplist.go:63-70 | the drawn level lies in [1, MaxLevel]; it is 1 plus the number of leading successful draws, and below MaxLevel the next draw failed |
| Engine.NewSkipListNode | skiplist/skiplist.go:37-40 | a new node carries the key and value and has `level` forward slots, all nil, and no backward link |
| Engine.NewSkipList | skiplist/skiplist.go:42-51 | a new list has MaxLevel nil header links, no nodes, no tail, length 0 and level 1 |
| Queries.NewSkipListValid | skiplist/skiplist.go:42-51 | the new list satisfies the representation invariant and holds no entries |
| Descent.ScanLevel | skiplist/skiplist.go:76-78 | one level's scan stays on that level and never moves backward; where it stops is stated by ScanLevelFinds |
| Descent.DescendFrom | skiplist/skiplist.go:75-80 | the descent from level i records one cursor per level, each on its own level's chain; UpdateFinds states which node |
| Descent.Update | skiplist/skiplist.go:73-80 | the `update` array has one entry per current level, each on its own level's chain; UpdateFinds states which node |
| Descent.Walk | skiplist/skiplist.go:117-123 | the lookup descent never moves backward from where it starts; WalkFinds states where it ends |
| Descent.ScanLevelBy | skiplist/skiplist.go:154-156 | one level's scan steered by `fn` stays on that level and never moves backward |
| Descent.WalkBy | skiplist/skiplist.go:152-158 | the descent steered by `fn` never moves backward; WalkByAgrees states where it ends when `fn` is `Less` |
| Descent.ScanLevelFinds | skiplist/skiplist.go:76-78 | one level's scan stops at the last node on that level whose key is less than the target, or at the header |
| Descent.UpdateFinds | skiplist/skiplist.go:73-80 | every `update[i]` is the last node on level i whose key is less than the target, and `update[0]` is the node just before the target's rank |
| Descent.WalkFinds | skiplist/skiplist.go:117-123 | the lookup descent ends at the node just before the target's rank |
| Descent.WalkByAgrees | skiplist/skiplist.go:152-158 | a descent steered by a caller ordering equal to `Less` ends at the same node as the `Less` descent |
| Engine.Splice | skiplist/skiplist.go:96-99 | on levels below h, the attachment point's link now names the new key and the new node inherits the attachment point's old link; every other link is unchanged |
| Engine.Raise | skiplist/skiplist.go:87-93 | the `update` array keeps its entries below the old level and names the header on every level from there up to the new top |
| Engine.Place | skiplist/skiplist.go:95-100 | the new node takes its level-0 place after its attachment point, the other nodes keep their order, and the length grows by one |
| Engine.RepairBackward | skiplist/skiplist.go:103-114 | the new or overwritten node's backward link names `update[0]`, or nil for the header; its level-0 successor's backward link names it, or, without a successor, the tail does; no other backward link, no key, value or forward link, nor header, length or level changes |
| Engine.Insert | skiplist/skiplist.go:72-115 | its own contract fixes only the header's size; its effect is stated by InsertProof.InsertAbsent (absent key) and InsertFacts.InsertPresent (present key) |
| InsertProof.InsertAbsent | skiplist/skiplist.go:72-115 | inserting an absent key gives the canonical list of the old entries with (key, value, h) added at the key's rank |
| InsertFacts.InsertAbsentFacts | skiplist/skiplist.go:85-101 | inserting an absent key keeps the list valid and adds the entry at its rank; length grows by one and the level becomes max(level, h) |
| InsertFacts.RepairBackwardIdle | skiplist/skiplist.go:103-114 | on a valid list, re-running the backward/tail repair at an existing node changes nothing |
| InsertFacts.InsertPresent | skiplist/skiplist.go:82-84 | inserting a present key gives the canonical list of the old entries with only that entry's value replaced |
| InsertFacts.InsertPresentFacts | skiplist/skiplist.go:82-84 | inserting a present key keeps the list valid and replaces only that entry's value; length and level stay |
| InsertFacts.InsertValid | skiplist/skiplist.go:72-115 | Insert keeps the representation invariant: order, every level's links, backward links, tail, length and level |
| InsertFacts.SearchAfterInsert | skiplist/skiplist.go:72-139 | after Insert(key, value), Search(key) is value and Search of every other key is unchanged |
| Engine.SearchNode | skiplist/skiplist.go:117-131 | a found node holds a key equal to the target and is a node of the list |
| Queries.SearchNodeFinds | skiplist/skiplist.go:117-131 | SearchNode returns the node with an equal key when there is one, and nil when there is none |
| Engine.Search | skiplist/skiplist.go:133-139 | Search yields a value exactly when SearchNode finds a node |
| Queries.SearchFinds | skiplist/skiplist.go:133-139 | Search returns the value stored under an equal key, and nil for a key no node holds |
| Queries.SearchIsValueOf | skiplist/skiplist.go:133-139 | Search agrees with the plain scan of the entries (`Contents.ValueOf`) for every key |
| Engine.LowerBoundNode | skiplist/skiplist.go:141-150 | a returned node is a node of the list |
| Queries.LowerBoundNodeFinds | skiplist/skiplist.go:141-150 | LowerBoundNode returns a node whose key is not less than the target and all earlier keys are less; nil only when every key is less |
| Queries.LowerBoundNodeAtRank | skiplist/skiplist.go:141-150 | LowerBoundNode returns the node at the target's rank, or nil past the end |
| Queries.LowerBoundNodeOfPresent | skiplist/skiplist.go:141-150 | the lower bound of a present key is that key's own node |
| Engine.LowerBoundNodeFn | skiplist/skiplist.go:152-161 | a returned node is a node of the list; with `fn` equal to `Less` its result is stated by LowerBoundNodeFnAgrees |
| Queries.LowerBoundNodeFnAgrees | skiplist/skiplist.go:152-161 | with a caller ordering equal to `Less`, LowerBoundNodeFn returns what LowerBoundNode returns |
| Engine.Stop | skiplist/skiplist.go:174-180 | the unlink loop runs exactly over the levels, from 0 up, whose attachment point still names the deleted node |
| Engine.Unlink | skiplist/skiplist.go:174-180 | on the levels where the attachment point names the deleted node, it takes over the deleted node's link; nothing else changes, and the loop never reads above the node's height |
| Engine.UnlinkAllowed | skiplist/skiplist.go:172-180 | on a valid list no attachment point above the deleted node's height names that node |
| Engine.Drop | skiplist/skiplist.go:174-180 | the unlinked node leaves the level-0 order; the other nodes keep their order, and header, tail, level and length are unchanged |
| Engine.RepairAfterRemove | skiplist/skiplist.go:182-186 | the removed node's level-0 successor takes over its backward link, or, without a successor, the tail takes it; no other backward link, no key, value or forward link, nor header, length or level changes |
| Engine.Shrink | skiplist/skiplist.go:188-191 | the shrunk level is at least 1 and at most the old level, every header link from it up to the old level is nil, and its own top header link is set unless it is 1 |
| Engine.DeleteNode | skiplist/skiplist.go:163-198 | a nil result leaves the list unchanged; a returned node holds a key equal to the target and was a node of the list |
| DeleteProof.DeletePresent | skiplist/skiplist.go:163-198 | deleting a present key gives the canonical list of the old entries without that entry, and returns the old node |
| DeleteFacts.DeletePresentFacts | skiplist/skiplist.go:172-195 | deleting a present key keeps the list valid, returns that node and removes its entry; length drops by one and the level becomes the tallest remaining height, never higher than before |
| DeleteFacts.DeleteAbsentFacts | skiplist/skiplist.go:196-198 | deleting a key no node holds returns nil and leaves the list as it was |
| DeleteFacts.DeleteValid | skiplist/skiplist.go:163-198 | DeleteNode keeps the representation invariant: order, every level's links, backward links, tail, length and level |
| DeleteFacts.SearchAfterDelete | skiplist/skiplist.go:163-198 | after DeleteNode(key), Search(key) is nil and Search of every other key is unchanged |
| DeleteFacts.SearchAfterDeleteAt | skiplist/skiplist.go:163-198 | for one probe key k: after DeleteNode(key) the list stays valid, and Search(k) is nil when k equals key and otherwise what it was before |
| Contents.ValueOfInsertAt | skiplist/skiplist.go:85-101 | after adding an entry, its key maps to its value and every other key to its old value |
| Contents.ValueOfOverwrite | skiplist/skiplist.go:82-84 | after overwriting an entry's value, its key maps to the new value and every other key to its old value |
| Contents.ValueOfRemoveAt | skiplist/skiplist.go:172-195 | after removing an entry, its key maps to nothing and every other key to its old value |
| Canon.BuildValid | skiplist/skiplist.go:14-26 | the canonical list of sorted entries satisfies the representation invariant and holds exactly those entries |
| Canon.ValidIsBuild | skiplist/skiplist.go:14-26 | a list satisfying the representation invariant is determined by its entries |
| Engine.IsEmpty | skiplist/skiplist.go:201-203 | on a valid list, IsEmpty holds exactly when there are no nodes |
| Engine.First | skiplist/skiplist.go:205-207 | a returned node is a node of the list |
| Queries.FirstIsHead | skiplist/skiplist.go:205-207 | First is the first node in key order, and nil exactly when the list is empty |
| Engine.Length | skiplist/skiplist.go:225-227 | on a valid list, Length is the number of nodes |
| Engine.Next | skiplist/skiplist.go:209-211 | a returned node is a node of the list |
| Engine.Prev | skiplist/skiplist.go:213-215 | a returned node is a node of the list |
| Queries.NeighboursOf | skiplist/skiplist.go:209-215 | Next and Prev of a node are its level-0 successor and predecessor, nil at the ends |
| Queries.TailIsLast | skiplist/skiplist.go:109-114 | the tail is the last node in key order, nil when the list is empty |
| Queries.LevelIsTallest | skiplist/skiplist.go:87-93 | no node is taller than the list's level, and some node is exactly that tall unless the level is 1 |
| Drain.FirstRemoved | skiplist/skiplist_test.go:253-256 | once the first entry is gone, the old first node's level-0 link leads to the new first node, and the other keys move one place forward |
| Drain.LastRemoved | skiplist/skiplist_test.go:269-272 | once the last entry is gone, the old last node's backward link leads to the new last node, and the other keys stay in place |
| Drain.EmptyIsReset | skiplist/skiplist_test.go:259-264 | an empty valid list has level 1, no first node and no tail, and deleting any key from it returns nil |
| Drain.DeleteAllForward | skiplist/skiplist_test.go:251-265 | deleting from the front, following each deleted node's own forward link, removes every key in ascending order and ends with length 0, level 1, no first node and no tail |
| Drain.DeleteAllBackward | skiplist/skiplist_test.go:268-280 | deleting from the tail, following each deleted node's backward link, removes every key in descending order and ends with length 0, level 1, no first node and no tail |

## Left out

- Randomness: `init` seeds the generator from the clock (skiplist/skiplist.go:33-35). `rand.Float32() < 0.25` is a floating-point draw. Both are inputs here: the `draw` stream of `Levels.RandomLevel` and the height `h` of `Engine.Insert`. The level distribution is not modelled.
- The package-level `randomLevel` (skiplist/skiplist.go:54-61) is the same loop as the method. `Levels.RandomLevel` stands for both.
- Keys are `int` under `<`, not the `container.Comparer` interface. So the runtime type assertions of concrete key types, and the panic on mismatched key types, are not modelled.
- The source compares a found key with `==`, which is interface equality (same dynamic type and equal value, and a panic when the dynamic type is not comparable), but orders with `Less`. The model uses order-derived equality throughout. For keys where the two notions differ, the Go code could store two equal-ordered keys; the model does not capture this.
- Node identity: a node is named by its key, and a returned node is its value at the time of the call. The Go code hands out live pointers that later operations mutate; the model does not track this aliasing.
- Engine.Search: Go returns `nil` both for a missing key and for a key stored with a `nil` value. The model returns `None` only for a missing key.
- Engine.Unlink: requires that no attachment point above the deleted node's height names that node, which Go's indexing of `x.level[i]` relies on. `Engine.UnlinkAllowed` proves this for every valid list.
- Engine.RepairBackward, Engine.RepairAfterRemove: a successor key that names no node is skipped. This cannot happen on a valid list; Go would dereference the pointer instead.
- `Key()` and `Value()` (skiplist/skiplist.go:217-223) are field reads of the node datatype.
- Concurrency (the structure has no synchronisation), memory reclamation, and the tests' printing helper are outside the model.
- Engine.Insert: its own contract states only the header's size, because a stronger one would need the proofs that are built on Insert itself. What it does is proved in InsertProof.InsertAbsent, InsertFacts.InsertPresent and InsertFacts.InsertValid.
- Engine.LowerBoundNodeFn: for an `fn` that is not `Less` the result is only known to be a node of the list. An arbitrary `fn` need not be an order, so nothing more holds in general.
- Descent.ScanLevel, Descent.DescendFrom, Descent.Update, Descent.Walk, Descent.ScanLevelBy, Descent.WalkBy: their own contracts state only the bounds the recursion needs. Where each descent ends is stated by Descent.ScanLevelFinds, Descent.UpdateFinds, Descent.WalkFinds and Descent.WalkByAgrees.
- Engine.IsEmpty, Engine.Length: they read the `length` field, as Go does. Their link to the number of nodes is stated under the representation invariant only.

The Go `Insert` also runs the backward/tail repair (lines 103-114) on the overwrite branch, where the value is replaced "in place". The model does the same, and `InsertFacts.RepairBackwardIdle` proves that on a valid list this repair changes nothing.
