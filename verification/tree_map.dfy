/**
 The tree map (treemap.go:97-326): a root, a size counter and the
 comparator, with insertion, removal, lookup, first and last key, and an
 in-order iterator.

 `Valid` is the state every public operation keeps: the comparator is a
 consistent ordering, the tree is a search tree under it, and the counter
 equals the number of nodes.
 */
module TreeMaps {
  import opened Optional
  import opened CompareFn
  import opened AssocList
  import opened TreeNodes
  import opened TreeInsert
  import opened TreeRemove
  import opened TreeCursor

  datatype TreeMap<!K, V> = TreeMap(root: Tree<K, V>, size: int, cmpFn: (K, K) -> int)

  ghost predicate Valid<K(!new), V>(m: TreeMap<K, V>) {
    && IsCompareFn(m.cmpFn)
    && Ordered(m.cmpFn, m.root)
    && m.size == |Entries(m.root)|
  }

  /** An empty map ordered by `cmp` (treemap.go:120-122). */
  function NewTreeMap<K(!new), V>(cmp: (K, K) -> int): (r: TreeMap<K, V>)
    ensures r.cmpFn == cmp && r.size == 0
    ensures Entries(r.root) == [] && AA(r.root)
    ensures IsCompareFn(cmp) ==> Valid(r)
  {
    TreeMap(Nil, 0, cmp)
  }

  /**
   Insert or overwrite (treemap.go:135-144). Whatever the comparator, the
   counter moves with the number of nodes: their difference is kept.
   */
  function Insert<K, V>(m: TreeMap<K, V>, key: K, value: V): (r: TreeMap<K, V>)
    ensures r.cmpFn == m.cmpFn && r.root.Node?
    ensures r.size - |Entries(r.root)| == m.size - |Entries(m.root)|
  {
    if m.root.Nil? then
      m.(root := Leaf(key, value), size := m.size + 1)
    else
      var (root, grew) := InsertWalk(m.cmpFn, m.root, key, value);
      m.(root := root, size := if grew then m.size + 1 else m.size)
  }

  /**
   Remove a key if present (treemap.go:177-181). Whatever the comparator,
   the counter moves with the number of nodes: their difference is kept.
   */
  function Remove<K, V>(m: TreeMap<K, V>, key: K): (r: TreeMap<K, V>)
    ensures r.cmpFn == m.cmpFn
    ensures r.size - |Entries(r.root)| == m.size - |Entries(m.root)|
  {
    if m.root.Nil? then m
    else
      var (root, removed) := RemoveWalk(m.cmpFn, m.root, key);
      m.(root := root, size := if removed then m.size - 1 else m.size)
  }

  /**
   The search below a node (treemap.go:279-294): whatever it finds is an
   entry of the tree whose key compares equal to the searched key.
   */
  function GetWalk<K, V>(cmp: (K, K) -> int, t: Tree<K, V>, key: K): (r: Option<(K, V)>)
    ensures r.Some? ==> r.value in Entries(t) && cmp(key, r.value.0) == 0
  {
    if t.Nil? then None
    else
      var dir := cmp(key, t.key);
      if dir < 0 then GetWalk(cmp, t.less, key)
      else if dir > 0 then GetWalk(cmp, t.greater, key)
      else Some((t.key, t.value))
  }

  /** The value stored for a key, if any (treemap.go:270-277). */
  function Get<K(!new), V>(m: TreeMap<K, V>, key: K): (r: Option<V>)
    ensures r.Some? ==> exists k :: (k, r.value) in Entries(m.root) && m.cmpFn(key, k) == 0
  {
    match GetWalk(m.cmpFn, m.root, key)
    case None => None
    case Some(e) => Some(e.1)
  }

  /** The stored size counter (treemap.go:324-326): the number of entries of a valid map. */
  function GetSize<K(!new), V>(m: TreeMap<K, V>): (r: int)
    ensures Valid(m) ==> r == |Entries(m.root)|
  {
    m.size
  }

  /**
   The smallest key (treemap.go:296-308): none for an empty map, otherwise
   the key of the first in-order entry, which in a search tree is below
   every other key.
   */
  method GetFirstKey<K, V>(m: TreeMap<K, V>) returns (r: Option<K>)
    ensures r.None? <==> Entries(m.root) == []
    ensures r.Some? ==> r.value == Entries(m.root)[0].0
    ensures r.Some? && Ordered(m.cmpFn, m.root) ==>
      forall i :: 0 < i < |Entries(m.root)| ==> m.cmpFn(r.value, Entries(m.root)[i].0) < 0
  {
    if m.root.Nil? {
      return None;
    }
    var node := m.root;
    while node.less.Node?
      invariant node.Node? && |Entries(node)| > 0
      invariant Entries(node)[0] == Entries(m.root)[0]
      decreases node
    {
      assert Entries(node) == Entries(node.less) + [(node.key, node.value)] + Entries(node.greater);
      node := node.less;
    }
    assert Entries(node) == [] + [(node.key, node.value)] + Entries(node.greater);
    r := Some(node.key);
  }

  /**
   The greatest key (treemap.go:310-322): none for an empty map, otherwise
   the key of the last in-order entry, which in a search tree is above
   every other key.
   */
  method GetLastKey<K, V>(m: TreeMap<K, V>) returns (r: Option<K>)
    ensures r.None? <==> Entries(m.root) == []
    ensures r.Some? ==> r.value == Entries(m.root)[|Entries(m.root)| - 1].0
    ensures r.Some? && Ordered(m.cmpFn, m.root) ==>
      forall i :: 0 <= i < |Entries(m.root)| - 1 ==> m.cmpFn(Entries(m.root)[i].0, r.value) < 0
  {
    if m.root.Nil? {
      return None;
    }
    var node := m.root;
    while node.greater.Node?
      invariant node.Node? && |Entries(node)| > 0
      invariant Entries(node)[|Entries(node)| - 1] == Entries(m.root)[|Entries(m.root)| - 1]
      decreases node
    {
      assert Entries(node) == Entries(node.less) + [(node.key, node.value)] + Entries(node.greater);
      node := node.greater;
    }
    assert Entries(node) == Entries(node.less) + [(node.key, node.value)] + [];
    r := Some(node.key);
  }

  // ---------------------------------------------------------------------
  // Iteration

  /** The iterator: the node whose entry `Next` yields next, if any (treemap.go:97-99). */
  datatype TreeMapIterator<K, V> = TreeMapIterator(next: Option<Cursor<K, V>>)

  ghost predicate IteratorValid<K, V>(it: TreeMapIterator<K, V>) {
    it.next.Some? ==> it.next.value.focus.Node?
  }

  /** The entries the iterator has still to yield. */
  ghost function Pending<K, V>(it: TreeMapIterator<K, V>): seq<(K, V)>
    requires IteratorValid(it)
  {
    if it.next.None? then [] else Remaining(it.next.value)
  }

  /**
   A fresh iterator on the first entry (treemap.go:124-133): it has all the
   map's entries, in order, still to yield.
   */
  function Iterator<K, V>(m: TreeMap<K, V>): (r: TreeMapIterator<K, V>)
    ensures IteratorValid(r)
    ensures Pending(r) == Entries(m.root)
    ensures r.next.Some? ==> Plug(r.next.value.focus, r.next.value.path) == m.root
  {
    if m.root.Nil? then TreeMapIterator(None)
    else
      var c := LeftmostCursor(m.root, []);
      assert PathAfter<K, V>([]) == [];
      assert Entries(m.root) + [] == Entries(m.root);
      TreeMapIterator(Some(c))
  }

  /**
   One step of the iterator (treemap.go:101-112): yields the first pending
   entry and moves to the successor, or yields nothing once all entries
   have been yielded.
   */
  function Next<K, V>(it: TreeMapIterator<K, V>): (r: (Option<(K, V)>, TreeMapIterator<K, V>))
    requires IteratorValid(it)
    ensures IteratorValid(r.1)
    ensures r.0.None? <==> Pending(it) == []
    ensures r.0.None? ==> Pending(r.1) == []
    ensures r.0.Some? ==> Pending(it) == [r.0.value] + Pending(r.1)
  {
    match it.next
    case None => (None, it)
    case Some(c) =>
      var s := Successor(c);
      var r := TreeMapIterator(s);
      assert Remaining(c) == [Remaining(c)[0]] + Remaining(c)[1..];
      assert s.None? ==> Remaining(c)[1..] == [];
      (Some((c.focus.key, c.focus.value)), r)
  }

  /**
   Draining a fresh iterator yields every entry of the map exactly once, in
   in-order, and then stops.
   */
  method Drain<K(!new), V>(m: TreeMap<K, V>) returns (out: seq<(K, V)>)
    ensures out == Entries(m.root)
    ensures Valid(m) ==> Increasing(m.cmpFn, out) && |out| == m.size
  {
    var it := Iterator(m);
    out := [];
    while true
      invariant IteratorValid(it)
      invariant out + Pending(it) == Entries(m.root)
      decreases |Pending(it)|
    {
      var (entry, rest) := Next(it);
      if entry.None? {
        assert out + [] == out;
        return;
      }
      assert out + Pending(it) == (out + [entry.value]) + Pending(rest);
      out := out + [entry.value];
      it := rest;
    }
  }

  // ---------------------------------------------------------------------
  // Properties of the public operations

  /**
   Insertion keeps the map valid, places the entry as sorted insertion
   does, and counts one more entry exactly when the key was new.
   */
  lemma InsertKeepsValid<K(!new), V>(m: TreeMap<K, V>, key: K, value: V)
    requires Valid(m)
    ensures Valid(Insert(m, key, value))
    ensures Entries(Insert(m, key, value).root) == InsertSorted(m.cmpFn, Entries(m.root), key, value)
    ensures Insert(m, key, value).size == if key in Keys(Entries(m.root)) then m.size else m.size + 1
  {
    var s := Entries(m.root);
    InsertSortedIncreasing(m.cmpFn, s, key, value);
    InsertSortedLength(m.cmpFn, s, key, value);
    if m.root.Node? {
      InsertWalkEntries(m.cmpFn, m.root, key, value);
    }
  }

  /** Insertion keeps the AA level invariants. */
  lemma InsertKeepsAA<K, V>(m: TreeMap<K, V>, key: K, value: V)
    requires AA(m.root)
    ensures AA(Insert(m, key, value).root)
  {
    if m.root.Node? {
      InsertWalkAA(m.cmpFn, m.root, key, value);
    }
  }

  /**
   Removal keeps the map valid, takes out exactly the entry with the key,
   and counts one entry less exactly when the key was present.
   */
  lemma RemoveKeepsValid<K(!new), V>(m: TreeMap<K, V>, key: K)
    requires Valid(m)
    ensures Valid(Remove(m, key))
    ensures Entries(Remove(m, key).root) == RemoveFirst(Entries(m.root), key)
    ensures Remove(m, key).size == if key in Keys(Entries(m.root)) then m.size - 1 else m.size
  {
    var s := Entries(m.root);
    RemoveFirstIncreasing(m.cmpFn, s, key);
    RemoveFirstLength(s, key);
    if m.root.Node? {
      RemoveWalkEntries(m.cmpFn, m.root, key);
    }
  }

  /**
   Removing an absent key from an AA tree map changes nothing at all. The
   AA precondition is needed: in a tree that removals have left without the
   AA levels, the level adjustment can still lower a node
   (Scenarios.AbsentRemovalLowersLevel).
   */
  lemma RemoveAbsentUnchanged<K(!new), V>(m: TreeMap<K, V>, key: K)
    requires Valid(m) && AA(m.root) && key !in Keys(Entries(m.root))
    ensures Remove(m, key) == m
  {
    if m.root.Node? {
      RemoveWalkAbsentKeepsAA(m.cmpFn, m.root, key);
    }
  }

  /** In a valid map the search finds exactly what a lookup of the entries finds. */
  lemma {:induction false} GetWalkLookup<K(!new), V>(cmp: (K, K) -> int, t: Tree<K, V>, key: K)
    requires IsCompareFn(cmp) && Ordered(cmp, t)
    ensures GetWalk(cmp, t, key).None? <==> key !in Keys(Entries(t))
    ensures GetWalk(cmp, t, key).Some? ==> Lookup(Entries(t), key) == Some(GetWalk(cmp, t, key).value.1)
    decreases t
  {
    var r := GetWalk(cmp, t, key);
    if t.Node? {
      var a, x, b := Entries(t.less), (t.key, t.value), Entries(t.greater);
      assert Entries(t) == a + [x] + b;
      IncreasingSplit(cmp, a, x, b);
      var dir := cmp(key, t.key);
      if dir < 0 {
        GetWalkLookup(cmp, t.less, key);
        RemoveBelowStep(cmp, a, x, b, key);
      } else if dir > 0 {
        GetWalkLookup(cmp, t.greater, key);
        RemoveAboveStep(cmp, a, x, b, key);
      } else {
        RemoveEqualStep(cmp, a, x, b, key);
      }
      if r.Some? {
        assert r.value.0 == key;
        LookupIncreasing(cmp, Entries(t), key, r.value.1);
      }
    }
  }

  /** In a valid map `Get` is a lookup of the map's entries. */
  lemma GetIsLookup<K(!new), V>(m: TreeMap<K, V>, key: K)
    requires Valid(m)
    ensures Get(m, key) == Lookup(Entries(m.root), key)
  {
    GetWalkLookup(m.cmpFn, m.root, key);
    LookupFirst(Entries(m.root), key);
  }

  /** After insertion the key maps to the new value and every other key to what it did. */
  lemma GetAfterInsert<K(!new), V>(m: TreeMap<K, V>, key: K, value: V, other: K)
    requires Valid(m)
    ensures Get(Insert(m, key, value), other) == if other == key then Some(value) else Get(m, other)
  {
    InsertKeepsValid(m, key, value);
    GetIsLookup(m, other);
    GetIsLookup(Insert(m, key, value), other);
    InsertSortedLookup(m.cmpFn, Entries(m.root), key, value, other);
  }

  /** After removal the key maps to nothing and every other key to what it did. */
  lemma GetAfterRemove<K(!new), V>(m: TreeMap<K, V>, key: K, other: K)
    requires Valid(m)
    ensures Get(Remove(m, key), other) == if other == key then None else Get(m, other)
  {
    RemoveKeepsValid(m, key);
    GetIsLookup(m, other);
    GetIsLookup(Remove(m, key), other);
    RemoveFirstLookup(Entries(m.root), key, other);
    RemoveFirstLookupSorted(m.cmpFn, Entries(m.root), key);
  }

  /**
   Overwriting the value of a present key in an AA tree map keeps every
   node, key and level where it was and the counter as it was. The AA
   precondition is needed: in a tree that removals have left without the AA
   levels, the skews and splits on the way back can rotate
   (Scenarios.OverwriteRestructures).
   */
  lemma InsertPresentKeepsShape<K(!new), V>(m: TreeMap<K, V>, key: K, value: V)
    requires Valid(m) && AA(m.root) && key in Keys(Entries(m.root))
    ensures SameShape(Insert(m, key, value).root, m.root)
    ensures Insert(m, key, value).size == m.size
  {
    InsertWalkPresentKeepsShape(m.cmpFn, m.root, key, value);
  }
}
