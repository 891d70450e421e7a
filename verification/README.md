# godsaext maps in Dafny

A Dafny model of the two key/value maps of the `dsaext` Go package and of
its standard comparators:

- **TreeMap** (`treemap.go`) is a balanced binary search tree in the AA-tree
  style. Each node carries a level. Insertion and removal are recursive
  walks that rebalance with *skew* and *split* on the way back. An iterator
  walks the entries in key order through the nodes' parent links.
- **VMap** (`src/dsaext/vmap.go`) is a doubly linked list of entries.
  Entries are added in front of the head or after the tail, duplicate keys
  are allowed, and lookup and removal act on the first matching node from
  the head.
- **Standard comparators** (`src/dsaext/stdcompare.go`) are three-way
  comparisons returning -1, 0 or 1. There is one for `int` and one for
  each sized integer type (`int8` to `int64`, `uint8` to `uint64`), two for
  floats (see "## Left out"), and one for strings.

Both maps take a comparator `cmpFn`. The package asks it to return a
negative number, zero or a positive number as the first key is below, equal
to or above the second (`src/dsaext/dsaext.go:34-40`). The model states this
as `CompareFn.IsCompareFn`: zero exactly for equal keys, antisymmetric signs,
and a transitive "below".

Each map's contents are seen as a sequence of `(key, value)` entries:

- A tree map's entries are the in-order sequence of its nodes.
- A VMap's entries are its nodes from head to tail.

The operations are specified against reference functions on such sequences
in module `AssocList`:

- `InsertSorted` inserts into a sorted sequence;
- `RemoveFirst` drops the first entry with a key;
- `Lookup` finds the first entry with a key.

Modules and files:

| file | module | models |
|---|---|---|
| optional.dfy | Optional | the `Option` datatype |
| compare_fn.dfy | CompareFn | the comparator contract |
| assoc_list.dfy | AssocList | reference semantics on entry sequences |
| tree_node.dfy | TreeNodes | tree nodes, the AA level invariant, skew and split |
| tree_insert.dfy | TreeInsert | `insertWalk` |
| tree_remove.dfy | TreeRemove | `removeWalk`, with its level adjustment and rebalancing |
| tree_cursor.dfy | TreeCursor | `successor`, `predecessor` and the descent to the first node |
| tree_map.dfy | TreeMaps | the public `TreeMap` operations and its iterator |
| vmap.dfy | VMaps | `VMap` and its iterator |
| std_compare.dfy | StdCompare | the integer and string comparators |
| scenarios.dfy | Scenarios | concrete runs with integer keys |

Tree nodes are an immutable datatype. The source's `parent` back-link is not
a field. Where a walk climbs through parents, the model uses a zipper
instead: a `Cursor` holds the focused subtree and the path of frames up to
the root, each frame saying on which side the subtree hangs. VMap nodes live
in an arena, a sequence indexed by pointer. A ghost `chain` lists the
pointers from head to tail, and `VMaps.Linked` ties the `prev`/`next` links,
head, tail and size counter to it.

## Model

| member | source | states |
|---|---|---|
| TreeNodes.Leaf | treemap.go:41-43 | a new node holds exactly the given entry, on level 1, and has no children |
| TreeNodes.Leftmost | treemap.go:216-219 | following `less` links ends at a node without a `less` child that holds the subtree's first in-order entry |
| TreeNodes.Rightmost | treemap.go:203-206 | following `greater` links ends at a node without a `greater` child that holds the subtree's last in-order entry |
| TreeNodes.Skew | treemap.go:328-350 | skew keeps the in-order entries and the in-order sequence of levels |
| TreeNodes.Split | treemap.go:352-376 | split keeps the in-order entries; either nothing changes or exactly one level, the new top's, rises by one |
| TreeInsert.InsertWalk | treemap.go:146-175 | the walk returns a node; the subtree grows by one entry exactly when the flag that drives `size++` is set |
| TreeInsert.InsertWalkEntries | treemap.go:146-175 | the walk's in-order entries are the sorted insertion of the key into the old entries; a node is added exactly when the key was absent |
| TreeInsert.InsertWalkAA | treemap.go:146-175 | from an AA tree the walk returns an AA tree on the same level or one higher, the latter only when the old top had a `greater` child on its level |
| TreeInsert.RebalanceLessAA | treemap.go:154-158 | when the `less` child comes back AA on its old level, or one higher with its `greater` child below, skew and split make the node AA again, on its own level or one higher only when its `greater` child was on its level |
| TreeInsert.RebalanceGreaterAA | treemap.go:164-168 | when the `greater` child comes back AA on its old level, or one higher with its own `greater` child on the old level, skew and split make the node AA again, on its own level or one higher only when its `greater` child was on its level |
| TreeInsert.RotationsKeepAA | treemap.go:328-376 | skew and split leave an AA tree unchanged |
| TreeInsert.InsertWalkPresentKeepsShape | treemap.go:169-173 | overwriting a present key in an AA tree keeps every node, key and level, and adds no node |
| TreeInsert.SameShapeAA | treemap.go:169-173 | trees that differ only in values have the same levels and are AA together |
| TreeRemove.AdjustLevel | treemap.go:233-250 | the level adjustment keeps the entries and the `less` child, and never raises the node's or its `greater` child's level |
| TreeRemove.RebalanceAfterRemove | treemap.go:252-264 | the three skews and two splits after a removal keep the in-order entries |
| TreeRemove.RemoveWalk | treemap.go:183-268 | the subtree shrinks by one entry exactly when the flag that drives `size--` is set |
| TreeRemove.RemoveWalkEntries | treemap.go:183-268 | the walk's in-order entries are the old ones without the entry of the key; a node is dropped exactly when the key was present |
| TreeRemove.RemoveWalkPredecessor | treemap.go:201-213 | removing a key whose node has a `less` child moves the predecessor's entry into the node and removes it from the `less` subtree, with the same overall effect |
| TreeRemove.RemoveWalkSuccessor | treemap.go:214-226 | removing a key whose node has no `less` child but a `greater` child moves the successor's entry into the node and removes it from the `greater` subtree, with the same overall effect |
| TreeRemove.RemoveWalkLeaf | treemap.go:227-230 | removing the key of a leaf drops the node, which takes out exactly that key's entry and is reported as a removal |
| TreeRemove.AdjustLevelKeepsAA | treemap.go:233-250 | on an AA node the level adjustment changes nothing |
| TreeRemove.RebalanceKeepsAA | treemap.go:252-264 | on an AA node the rebalancing changes nothing |
| TreeRemove.RemoveWalkAbsentKeepsAA | treemap.go:183-268 | removing an absent key from an AA tree returns the very same tree and drops no node |
| TreeCursor.Push | treemap.go:32-39 | stepping down into a child keeps the tree; stepping into the `less` child puts the node's entry and its `greater` subtree after the child, stepping into the `greater` child puts the `less` subtree and the node's entry before it |
| TreeCursor.PlugEntries | treemap.go:32-39 | a tree's entries are those its path places before a subtree, the subtree's, and those the path places after |
| TreeCursor.CursorSplitsEntries | treemap.go:32-39 | a cursor splits the tree's entries into those before it and those remaining from it |
| TreeCursor.LeftmostCursor | treemap.go:124-133 | descending to the first node keeps the tree, and all of the subtree remains to be yielded from there |
| TreeCursor.RightmostCursor | treemap.go:77-80 | descending to the last node keeps the tree; the node's entry is the last one before what the path places after the subtree |
| TreeCursor.Ascend | treemap.go:57-64 | climbing finds no node exactly when nothing follows the subtree in order, and otherwise a node from which exactly what follows remains |
| TreeCursor.Successor | treemap.go:45-69 | the successor is none exactly when one entry remains, and otherwise the entries remaining from it are those after the cursor's own |
| TreeCursor.PredecessorAsWritten | treemap.go:71-95 | the predecessor as written stays in the tree; with a `less` child it is the node holding the last entry before the cursor's own; without one it is none exactly when nothing follows the node's subtree, and otherwise a node from which exactly what follows that subtree remains, an entry after the cursor's own |
| TreeCursor.AscendLeft | treemap.go:83-92 | the intended climb finds no node exactly when nothing precedes the subtree, and otherwise the node whose entry is the last one before it |
| TreeCursor.Predecessor | treemap.go:71-95 | the corrected predecessor is none exactly when no entry precedes the cursor, and otherwise the node holding the last preceding entry |
| TreeCursor.SuccessorThenPredecessor | treemap.go:45-95 | the corrected predecessor of the successor is back on the cursor's own entry with the same entries before it |
| TreeMaps.NewTreeMap | treemap.go:120-122 | a new map ordered by `cmp` has no entries and a zero counter and, with a consistent comparator, is valid |
| TreeMaps.Insert | treemap.go:135-144 | insertion yields a non-empty tree, and the size counter moves with the number of nodes whatever the comparator |
| TreeMaps.Remove | treemap.go:177-181 | removal keeps the comparator, and the size counter moves with the number of nodes whatever the comparator |
| TreeMaps.GetWalk | treemap.go:279-294 | whatever the search returns is an entry of the tree whose key compares equal to the searched key |
| TreeMaps.Get | treemap.go:270-277 | a returned value belongs to an entry whose key compares equal to the searched key |
| TreeMaps.GetSize | treemap.go:324-326 | in a valid map the size counter is the number of entries |
| TreeMaps.GetFirstKey | treemap.go:296-308 | none exactly for an empty map; otherwise the first in-order key, which in a search tree is below every other key |
| TreeMaps.GetLastKey | treemap.go:310-322 | none exactly for an empty map; otherwise the last in-order key, which in a search tree is above every other key |
| TreeMaps.Iterator | treemap.go:124-133 | a fresh iterator has every entry of the map still to yield, in order |
| TreeMaps.Next | treemap.go:101-112 | a step yields nothing exactly when nothing is pending, and otherwise the first pending entry, leaving the rest pending |
| TreeMaps.Drain | treemap.go:101-133 | iterating from a fresh iterator until it stops yields every entry once, in in-order, which for a valid map is strictly increasing key order |
| TreeMaps.InsertKeepsValid | treemap.go:135-175 | insertion keeps the map valid, its entries are the sorted insertion of the pair, and the size grows exactly when the key is new |
| TreeMaps.InsertKeepsAA | treemap.go:135-175 | insertion keeps the AA level invariants |
| TreeMaps.RemoveKeepsValid | treemap.go:177-268 | removal keeps the map valid, takes out exactly the key's entry, and the size drops exactly when the key was present |
| TreeMaps.RemoveAbsentUnchanged | treemap.go:177-268 | removing an absent key from a valid AA tree map leaves the map unchanged |
| TreeMaps.GetWalkLookup | treemap.go:279-294 | in a search tree the search finds nothing exactly for absent keys, and otherwise the value a lookup of the entries finds |
| TreeMaps.GetIsLookup | treemap.go:270-294 | in a valid map `Get` equals a lookup of the map's entries |
| TreeMaps.GetAfterInsert | treemap.go:135-175 | after insertion the key maps to the new value and every other key to what it mapped to before |
| TreeMaps.GetAfterRemove | treemap.go:177-268 | after removal the key maps to nothing and every other key to what it mapped to before |
| TreeMaps.InsertPresentKeepsShape | treemap.go:135-175 | in a valid map whose tree is AA, overwriting a present key keeps the tree's shape and the size |
| AssocList.LookupFirst | src/dsaext/vmap.go:159-168 | lookup finds nothing exactly for absent keys, and otherwise the first entry with the key |
| AssocList.LookupIncreasing | treemap.go:279-294 | in a sorted sequence lookup yields `v` exactly when `(k, v)` is an entry |
| AssocList.InsertSortedLookup | treemap.go:146-175 | after sorted insertion the key maps to the new value and every other key keeps its lookup |
| AssocList.InsertSortedIncreasing | treemap.go:146-175 | sorted insertion keeps a sequence sorted |
| AssocList.InsertSortedLength | treemap.go:146-175 | sorted insertion grows the sequence by one exactly when the key is new |
| AssocList.InsertSortedKeys | treemap.go:146-175 | after sorted insertion the keys are the old keys plus the inserted one |
| AssocList.RemoveFirstSplice | src/dsaext/vmap.go:142-157 | removal cuts out exactly the first entry with the key, or nothing when there is none |
| AssocList.RemoveFirstLength | src/dsaext/vmap.go:142-157 | removal shortens the sequence by one exactly when the key is present |
| AssocList.RemoveFirstIncreasing | treemap.go:183-268 | removal keeps a sorted sequence sorted |
| AssocList.RemoveFirstLookup | src/dsaext/vmap.go:142-157 | removal keeps the lookup of every other key |
| AssocList.RemoveFirstLookupSorted | treemap.go:183-268 | in a sorted sequence the removed key is no longer found |
| VMaps.NewVMap | src/dsaext/vmap.go:67-69 | a new list is linked along the empty chain and has no entries |
| VMaps.Clear | src/dsaext/vmap.go:75-79 | a cleared list is linked along the empty chain and has no entries |
| VMaps.GetSize | src/dsaext/vmap.go:81-83 | the size counter is the length of the chain the list is linked along |
| VMaps.Prepend | src/dsaext/vmap.go:85-95 | the new node is the head, holds the entry and leads to the old head; the counter grows by one |
| VMaps.Append | src/dsaext/vmap.go:97-107 | the new node is the tail, holds the entry and leads back to the old tail; the counter grows by one |
| VMaps.PrependLinked | src/dsaext/vmap.go:85-95 | prepending keeps the list linked, along the chain with the new node first, and puts the entry in front |
| VMaps.AppendLinked | src/dsaext/vmap.go:97-107 | appending keeps the list linked, along the chain with the new node last, and puts the entry at the end |
| VMaps.FindNode | src/dsaext/vmap.go:159-168 | the search returns the first node from the head whose key compares equal, or none when no key does |
| VMaps.Get | src/dsaext/vmap.go:109-116 | the value returned belongs to a node of the list; with a consistent comparator it is the lookup of the entries |
| VMaps.FirstMatchIsLookup | src/dsaext/vmap.go:109-116 | the first entry with the key is what a lookup finds |
| VMaps.GetFirst | src/dsaext/vmap.go:118-128 | none exactly for an empty list, otherwise the first entry |
| VMaps.GetLast | src/dsaext/vmap.go:130-140 | none exactly for an empty list, otherwise the last entry |
| VMaps.Unlink | src/dsaext/vmap.go:144-155 | unlinking changes no entry of any node and decrements the counter |
| VMaps.UnlinkLinked | src/dsaext/vmap.go:144-155 | unlinking a node keeps the list linked along the chain without that node, whose entries are the old ones without that entry |
| VMaps.RelinkedAround | src/dsaext/vmap.go:144-155 | relinking the neighbours around a node is exactly what links the list along the chain without it |
| VMaps.Remove | src/dsaext/vmap.go:142-157 | removal keeps the list linked and drops at most one node; with a consistent comparator the entries become the old ones without the first entry of the key |
| VMaps.RemoveFirstAt | src/dsaext/vmap.go:142-157 | removing the key of the first matching entry cuts out exactly that entry |
| VMaps.Iterator | src/dsaext/vmap.go:71-73 | a fresh iterator is on the first node of the chain |
| VMaps.Next | src/dsaext/vmap.go:54-65 | a step yields nothing exactly past the tail, and otherwise the entry at its position, moving to the next position |
| VMaps.Drain | src/dsaext/vmap.go:54-73 | iterating from a fresh iterator until it stops yields the entries from head to tail |
| VMaps.LookupAfterPrepend | src/dsaext/vmap.go:85-95 | after a prepend the key finds the new value and every other key what it found before |
| VMaps.LookupAfterAppend | src/dsaext/vmap.go:97-107 | after an append a key already present still finds its old value; only a new key finds the appended value |
| StdCompare.CompareInt | src/dsaext/stdcompare.go:35-45 | the result is -1, 0 or 1, negative exactly when the first is smaller and positive exactly when it is larger |
| StdCompare.CompareUInt8 | src/dsaext/stdcompare.go:47-57 | as `CompareInt`, on the `uint8` range |
| StdCompare.CompareUInt16 | src/dsaext/stdcompare.go:59-69 | as `CompareInt`, on the `uint16` range |
| StdCompare.CompareUInt32 | src/dsaext/stdcompare.go:71-81 | as `CompareInt`, on the `uint32` range |
| StdCompare.CompareUInt64 | src/dsaext/stdcompare.go:84-94 | as `CompareInt`, on the `uint64` range |
| StdCompare.CompareInt8 | src/dsaext/stdcompare.go:96-106 | as `CompareInt`, on the `int8` range |
| StdCompare.CompareInt16 | src/dsaext/stdcompare.go:109-119 | as `CompareInt`, on the `int16` range |
| StdCompare.CompareInt32 | src/dsaext/stdcompare.go:122-132 | as `CompareInt`, on the `int32` range |
| StdCompare.CompareInt64 | src/dsaext/stdcompare.go:135-145 | as `CompareInt`, on the `int64` range |
| StdCompare.CompareIntIsCompareFn | src/dsaext/dsaext.go:34-40 | the `int` comparator meets the comparator contract |
| StdCompare.CompareUInt8IsCompareFn | src/dsaext/dsaext.go:34-40 | the `uint8` comparator meets the comparator contract |
| StdCompare.CompareUInt16IsCompareFn | src/dsaext/dsaext.go:34-40 | the `uint16` comparator meets the comparator contract |
| StdCompare.CompareUInt32IsCompareFn | src/dsaext/dsaext.go:34-40 | the `uint32` comparator meets the comparator contract |
| StdCompare.CompareUInt64IsCompareFn | src/dsaext/dsaext.go:34-40 | the `uint64` comparator meets the comparator contract |
| StdCompare.CompareInt8IsCompareFn | src/dsaext/dsaext.go:34-40 | the `int8` comparator meets the comparator contract |
| StdCompare.CompareInt16IsCompareFn | src/dsaext/dsaext.go:34-40 | the `int16` comparator meets the comparator contract |
| StdCompare.CompareInt32IsCompareFn | src/dsaext/dsaext.go:34-40 | the `int32` comparator meets the comparator contract |
| StdCompare.CompareInt64IsCompareFn | src/dsaext/dsaext.go:34-40 | the `int64` comparator meets the comparator contract |
| StdCompare.CompareString | src/dsaext/stdcompare.go:172-182 | the result is -1, 0 or 1: zero exactly for equal strings, negative exactly when the first comes first in bytewise lexicographic order, positive exactly when the second does |
| StdCompare.LexLessIsLexBefore | src/dsaext/stdcompare.go:176-180 | the recursive bytewise order agrees with the common-prefix definition of lexicographic order |
| StdCompare.LexLessIrreflexive | src/dsaext/stdcompare.go:176-180 | no string is below itself |
| StdCompare.LexLessTotal | src/dsaext/stdcompare.go:176-180 | of two different strings one is below the other |
| StdCompare.LexLessAsymmetric | src/dsaext/stdcompare.go:176-180 | no two strings are each below the other |
| StdCompare.LexLessTransitive | src/dsaext/stdcompare.go:176-180 | the string order is transitive |
| StdCompare.CompareStringIsCompareFn | src/dsaext/dsaext.go:34-40 | the string comparator meets the comparator contract |
| Scenarios.ThreeKeysBalanced | treemap.go:146-175 | inserting 1, 2, 3 in order ends in the AA tree 2 over 1 and 3, with size 3 |
| Scenarios.RemoveBreaksLevels | treemap.go:233-250 | from that tree, removing 3 leaves a root on level 2 without a `greater` child, which is not an AA tree; removing 1 next leaves a leaf on level 2 |
| Scenarios.PrunedTree | treemap.go:135-268 | inserting 8, 10, 11, 6, 4, 9, 5, 7, 1, 3, 2 and then removing 4, 2, 1 ends in a tree whose root 3 is on level 1 with no `less` child and a `greater` child on level 3 |
| Scenarios.OverwriteRestructures | treemap.go:157-172 | in that tree, which is not AA, overwriting the present key 5 keeps the size but rotates the tree: key 10 becomes the root on level 4, so the shape changes |
| Scenarios.AbsentRemovalLowersLevel | treemap.go:233-250 | removing 3 and 1 from the three-key tree and inserting 3 again leaves 2 on level 2 without a `less` child; removing the absent key 0 from it lowers 2 to level 1, so the map changes |
| Scenarios.PredecessorAsWrittenOvershoots | treemap.go:83-92 | in that tree the predecessor as written of the first entry, 1, is 2, while the corrected predecessor is none |
| Scenarios.DuplicateKeysShadow | src/dsaext/vmap.go:97-168 | appending key 7 twice keeps both entries; lookup finds the first, and removing key 7 once uncovers the second |

## Left out

- Parent links: the model has no `parent` field. The cursor rebuilds the path from the root instead, so the model assumes the parent links are consistent. The source maintains them in `skew`, `split`, `Insert` and the walks (treemap.go:138, 151, 161, 186-230, 332-372), and that upkeep is not modelled.
- Skew and split re-point the parent's child link and may reassign `tree.root` (treemap.go:333-341, 358-366). The model has each walk return the new subtree top, which the caller stores, as the source's callers also do.
- TreeMaps.Remove / TreeRemove.RemoveWalk: no claim that removal keeps the AA level invariants. The level adjustment at treemap.go:233-250 ignores a missing `greater` child instead of counting it as level 0, so removal can leave a node on level 2 with no `greater` child (Scenarios.RemoveBreaksLevels). Proving a corrected removal AA-preserving is beyond this model. Once a tree is no longer AA, the contracts that do not require AA still hold for every later operation: order, entries, size, lookups and iteration. The ones that need an AA tree beforehand no longer apply: insertion keeping AA (TreeMaps.InsertKeepsAA, TreeInsert.InsertWalkAA), an overwrite keeping the shape (TreeMaps.InsertPresentKeepsShape, TreeInsert.InsertWalkPresentKeepsShape), the removal of an absent key leaving the tree alone (TreeMaps.RemoveAbsentUnchanged, TreeRemove.RemoveWalkAbsentKeepsAA), and the logarithmic depth an AA tree guarantees (not stated in this model).
- TreeMaps.InsertPresentKeepsShape: holds only for an AA tree. After removals have broken the levels, an overwrite can rotate the tree, because every node on the way back still runs skew and split (treemap.go:157-158, 167-168). Scenarios.OverwriteRestructures shows a run where overwriting key 5 makes key 10 the new root. Entries, size and lookups after an overwrite are still given by TreeMaps.InsertKeepsValid and TreeMaps.GetAfterInsert for any valid map.
- TreeMaps.RemoveAbsentUnchanged: holds only for an AA tree. After removals have broken the levels, removing an absent key can still lower levels, because the level adjustment at treemap.go:233-250 runs on the way back whether or not a node was dropped. Scenarios.AbsentRemovalLowersLevel shows such a run. The entries and the size stay the same for any valid map (TreeMaps.RemoveKeepsValid).
- TreeMaps.Get and VMaps.Get: the source returns `(nil, false)` when the key is missing and `(value, true)` when it is found. The model returns `None` and `Some(value)`; the iterators' `Next` and `GetFirst`/`GetLast` are treated the same way.
- Key types: the source's keys are `interface{}`, and each comparator type-asserts its arguments, which panics on a key of another type. The model's keys are statically typed, so that panic cannot arise.
- `CompareFloat32` and `CompareFloat64` (stdcompare.go:147-170): floating point is not modelled. With NaN keys these comparators break the comparator contract.
- Go `int` size counters are unbounded integers; a wrap-around after 2^63 nodes is not modelled.
- TreeMaps.Iterator / TreeMaps.Next: the iterator is a cursor into the tree as it was when the iterator was made. The source's iterator holds a live node (treemap.go:101-112), so an insertion or removal while iterating can move or drop the nodes ahead of it. Iterating while a TreeMap changes is not modelled.
- VMaps.Remove: the removed node keeps its own `prev`/`next` links, as in the source. An iterator already on that node therefore continues into the list; iterating while the map changes is not modelled.
- Concurrency: neither map is safe for concurrent use in the source, and the model is sequential.
- VMaps arena: allocated nodes are never freed. The source relies on Go's garbage collector, which the model does not need.

## Findings

| source | as written | input that shows it | evidently intended | confidence | as-written member | corrected member |
|---|---|---|---|---|---|---|
| treemap.go:83-92 | `predecessor()` climbs while the node is its parent's `greater` child, the test copied from `successor()`, so from a node without a `less` child it returns the next greater ancestor | the tree built by inserting 1, 2, 3; the predecessor of the node with key 1 is reported as the node with key 2 | climb while the node is its parent's `less` child and return the first ancestor of which it is in the `greater` subtree; none for the first entry | high (not executed) | TreeCursor.PredecessorAsWritten, Scenarios.PredecessorAsWrittenOvershoots | TreeCursor.Predecessor, TreeCursor.SuccessorThenPredecessor |

Nothing in the package calls `predecessor()`: the iterator only moves
forward. So the slip does not reach any public operation. No other member
depends on `TreeCursor.Predecessor`; it stands as the corrected reference.
