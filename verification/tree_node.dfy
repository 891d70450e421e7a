/**
 The nodes of the tree map (treemap.go:32-43) and its two rebalancing
 rotations, skew and split (treemap.go:328-376).

 A node holds a key, a value, a `less` and a `greater` subtree and an AA
 level. The source's `parent` back-link is not a field here: a subtree is a
 value, and the path from the root to a node is recorded by the cursor of
 module TreeCursor when a walk needs it.
 */
module TreeNodes {
  import opened AssocList

  datatype Tree<K, V> =
    | Nil
    | Node(level: int, less: Tree<K, V>, key: K, value: V, greater: Tree<K, V>)


  /** The level of a subtree, an absent subtree counting as level 0. */
  function Lvl<K, V>(t: Tree<K, V>): int {
    if t.Nil? then 0 else t.level
  }

  /** The (key, value) pairs of `t` in in-order, the order the iterator yields them. */
  ghost function Entries<K, V>(t: Tree<K, V>): seq<(K, V)> {
    if t.Nil? then [] else Entries(t.less) + [(t.key, t.value)] + Entries(t.greater)
  }

  /** The levels of the nodes of `t`, in the same in-order as `Entries`. */
  ghost function Levels<K, V>(t: Tree<K, V>): seq<int> {
    if t.Nil? then [] else Levels(t.less) + [t.level] + Levels(t.greater)
  }

  /** Search-tree order: the in-order keys strictly increase under `cmp`. */
  ghost predicate Ordered<K, V>(cmp: (K, K) -> int, t: Tree<K, V>) {
    Increasing(cmp, Entries(t))
  }

  /**
   The AA-tree level invariants, with an absent child at level 0:
   the `less` child is exactly one level below its parent (so a node without
   a `less` child, in particular a leaf, is at level 1); the `greater` child
   is at the parent's level or one below; and the `greater` child's own
   `greater` child is strictly below the parent.
   */
  ghost predicate AA<K, V>(t: Tree<K, V>) {
    t.Nil? ||
    (&& AA(t.less) && AA(t.greater)
     && Lvl(t.less) == t.level - 1
     && (Lvl(t.greater) == t.level || Lvl(t.greater) == t.level - 1)
     && (t.greater.Node? ==> Lvl(t.greater.greater) < t.level))
  }

  /** Two trees with the same nodes, keys and levels; only values may differ. */
  ghost predicate SameShape<K, V>(a: Tree<K, V>, b: Tree<K, V>) {
    match (a, b)
    case (Nil, Nil) => true
    case (Node(la, lessA, ka, _, greaterA), Node(lb, lessB, kb, _, greaterB)) =>
      la == lb && ka == kb && SameShape(lessA, lessB) && SameShape(greaterA, greaterB)
    case _ => false
  }

  /** `after` is `before` with the level at position `p` raised by one. */
  ghost predicate RaisedAt(before: seq<int>, after: seq<int>, p: int) {
    0 <= p < |before| && after == before[p := before[p] + 1]
  }

  /**
   A fresh node (treemap.go:41-43): it holds exactly the given entry, on
   level 1, and is an AA tree on its own.
   */
  function Leaf<K, V>(key: K, value: V): (r: Tree<K, V>)
    ensures r.Node? && r.less.Nil? && r.greater.Nil?
    ensures Entries(r) == [(key, value)]
    ensures Levels(r) == [1]
    ensures AA(r)
  {
    var r := Node(1, Nil, key, value, Nil);
    assert Entries(r) == [] + [(key, value)] + [];
    assert Levels(r) == [] + [1] + [];
    r
  }

  lemma {:induction false} EntriesLength<K, V>(t: Tree<K, V>)
    ensures |Levels(t)| == |Entries(t)|
  {
    if t.Node? {
      EntriesLength(t.less);
      EntriesLength(t.greater);
    }
  }

  /** In an AA tree every node is at level 1 or above and its `greater` child is not above it. */
  lemma AALevels<K, V>(t: Tree<K, V>)
    requires AA(t) && t.Node?
    ensures t.level >= 1
    ensures Lvl(t.greater) <= t.level
  {
  }

  /**
   The node reached by following `less` links from `t` as far as they go
   (treemap.go:216-219): it holds the first in-order entry.
   */
  function Leftmost<K, V>(t: Tree<K, V>): (r: Tree<K, V>)
    requires t.Node?
    ensures r.Node? && r.less.Nil?
    ensures |Entries(t)| > 0 && Entries(t)[0] == (r.key, r.value)
  {
    if t.less.Nil? then t else Leftmost(t.less)
  }

  /**
   The node reached by following `greater` links from `t` as far as they go
   (treemap.go:203-206): it holds the last in-order entry.
   */
  function Rightmost<K, V>(t: Tree<K, V>): (r: Tree<K, V>)
    requires t.Node?
    ensures r.Node? && r.greater.Nil?
    ensures |Entries(t)| > 0 && Entries(t)[|Entries(t)| - 1] == (r.key, r.value)
  {
    if t.greater.Nil? then t else Rightmost(t.greater)
  }

  /**
   Skew: when the `less` child is on the same level, rotate right so that it
   becomes the top of the subtree (treemap.go:328-350). No level changes and
   the in-order sequence of entries is kept.
   */
  function Skew<K, V>(t: Tree<K, V>): (r: Tree<K, V>)
    requires t.Node?
    ensures r.Node?
    ensures Entries(r) == Entries(t)
    ensures Levels(r) == Levels(t)
  {
    if t.less.Node? && t.level == t.less.level then
      var l := t.less;
      Node(l.level, l.less, l.key, l.value, Node(t.level, l.greater, t.key, t.value, t.greater))
    else
      t
  }

  /**
   Split: when the `greater` child's `greater` child is on the node's level,
   rotate left so that the `greater` child becomes the top, and raise the new
   top by one level (treemap.go:352-376). The in-order entries are kept and
   the only level that changes is the new top's, which rises by exactly one.
   */
  function Split<K, V>(t: Tree<K, V>): (r: Tree<K, V>)
    requires t.Node?
    ensures r.Node?
    ensures Entries(r) == Entries(t)
    ensures r == t || RaisedAt(Levels(t), Levels(r), |Entries(r.less)|)
  {
    if t.greater.Node? && t.greater.greater.Node? && t.level == t.greater.greater.level then
      var g := t.greater;
      var r := Node(g.level + 1, Node(t.level, t.less, t.key, t.value, g.less), g.key, g.value, g.greater);
      EntriesLength(t.less);
      EntriesLength(g.less);
      assert |Entries(r.less)| == |Levels(t.less)| + 1 + |Levels(g.less)|;
      r
    else
      t
  }
}
