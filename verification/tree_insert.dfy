/**
 Insertion into the tree map (treemap.go:135-175): a recursive descent that
 attaches a fresh level-1 leaf where the key belongs, or overwrites the value
 of an equal key, and applies skew then split to every node on the way back.
 */
module TreeInsert {
  import opened CompareFn
  import opened AssocList
  import opened TreeNodes

  /**
   The walk below a present node (treemap.go:146-175). The flag reports
   whether a new node was attached, which is when the source increments the
   map's size counter.
   */
  function InsertWalk<K, V>(cmp: (K, K) -> int, node: Tree<K, V>, key: K, value: V): (r: (Tree<K, V>, bool))
    requires node.Node?
    ensures r.0.Node?
    ensures |Entries(r.0)| == |Entries(node)| + (if r.1 then 1 else 0)
    decreases node
  {
    var dir := cmp(key, node.key);
    if dir < 0 then
      var (child, grew) :=
        if node.less.Nil? then (Leaf(key, value), true)
        else InsertWalk(cmp, node.less, key, value);
      assert |Entries(node.(less := child))| == |Entries(child)| + 1 + |Entries(node.greater)|;
      (Split(Skew(node.(less := child))), grew)
    else if dir > 0 then
      var (child, grew) :=
        if node.greater.Nil? then (Leaf(key, value), true)
        else InsertWalk(cmp, node.greater, key, value);
      assert |Entries(node.(greater := child))| == |Entries(node.less)| + 1 + |Entries(child)|;
      (Split(Skew(node.(greater := child))), grew)
    else
      (node.(value := value), false)
  }

  /**
   The walk inserts into the in-order entries exactly as `InsertSorted` does,
   and attaches a node exactly when the key was absent.
   */
  lemma {:induction false} InsertWalkEntries<K(!new), V>(cmp: (K, K) -> int, node: Tree<K, V>, key: K, value: V)
    requires IsCompareFn(cmp)
    requires node.Node? && Ordered(cmp, node)
    ensures Entries(InsertWalk(cmp, node, key, value).0) == InsertSorted(cmp, Entries(node), key, value)
    ensures InsertWalk(cmp, node, key, value).1 <==> key !in Keys(Entries(node))
  {
    var a, x, b := Entries(node.less), (node.key, node.value), Entries(node.greater);
    assert Entries(node) == a + [x] + b;
    IncreasingSplit(cmp, a, x, b);
    var dir := cmp(key, node.key);
    if dir < 0 {
      var (c, grew) := if node.less.Nil? then (Leaf(key, value), true) else InsertWalk(cmp, node.less, key, value);
      if node.less.Node? {
        InsertWalkEntries(cmp, node.less, key, value);
      }
      assert Entries(node.(less := c)) == Entries(c) + [x] + b;
      InsertBelowStep(cmp, a, x, b, key, value);
    } else if dir > 0 {
      var (c, grew) := if node.greater.Nil? then (Leaf(key, value), true) else InsertWalk(cmp, node.greater, key, value);
      if node.greater.Node? {
        InsertWalkEntries(cmp, node.greater, key, value);
      }
      assert Entries(node.(greater := c)) == a + [x] + Entries(c);
      InsertAboveStep(cmp, a, x, b, key, value);
    } else {
      InsertEqualStep(cmp, a, x, b, key, value);
    }
  }

  /** A key below the node's key is inserted into the `less` part only. */
  lemma InsertBelowStep<K(!new), V>(cmp: (K, K) -> int, a: seq<(K, V)>, x: (K, V), b: seq<(K, V)>, key: K, value: V)
    requires IsCompareFn(cmp) && Increasing(cmp, a + [x] + b) && cmp(key, x.0) < 0
    ensures InsertSorted(cmp, a + [x] + b, key, value) == InsertSorted(cmp, a, key, value) + [x] + b
    ensures key in Keys(a + [x] + b) <==> key in Keys(a)
  {
    IncreasingSplit(cmp, a, x, b);
    InsertSortedBefore(cmp, a, [x] + b, key, value);
    assert a + [x] + b == a + ([x] + b);
    KeysConcat(a + [x], b);
    KeysConcat(a, [x]);
    assert Keys([x]) == [x.0];
    forall i | 0 <= i < |b|
      ensures b[i].0 != key
    {
      assert cmp(x.0, b[i].0) < 0;
    }
  }

  /** A key above the node's key is inserted into the `greater` part only. */
  lemma InsertAboveStep<K(!new), V>(cmp: (K, K) -> int, a: seq<(K, V)>, x: (K, V), b: seq<(K, V)>, key: K, value: V)
    requires IsCompareFn(cmp) && Increasing(cmp, a + [x] + b) && cmp(key, x.0) > 0
    ensures InsertSorted(cmp, a + [x] + b, key, value) == a + [x] + InsertSorted(cmp, b, key, value)
    ensures key in Keys(a + [x] + b) <==> key in Keys(b)
  {
    IncreasingSplit(cmp, a, x, b);
    forall i | 0 <= i < |a + [x]|
      ensures cmp(key, (a + [x])[i].0) > 0
    {
      if i < |a| {
        assert cmp(a[i].0, x.0) < 0;
      }
    }
    InsertSortedAfter(cmp, a + [x], b, key, value);
    KeysConcat(a + [x], b);
    KeysConcat(a, [x]);
    assert Keys([x]) == [x.0];
    forall i | 0 <= i < |a|
      ensures a[i].0 != key
    {
      assert cmp(a[i].0, x.0) < 0;
    }
  }

  /** A key equal to the node's key replaces the node's value. */
  lemma InsertEqualStep<K(!new), V>(cmp: (K, K) -> int, a: seq<(K, V)>, x: (K, V), b: seq<(K, V)>, key: K, value: V)
    requires IsCompareFn(cmp) && Increasing(cmp, a + [x] + b) && cmp(key, x.0) == 0
    ensures InsertSorted(cmp, a + [x] + b, key, value) == a + [(key, value)] + b
    ensures key in Keys(a + [x] + b)
  {
    IncreasingSplit(cmp, a, x, b);
    InsertSortedAfter(cmp, a, [x] + b, key, value);
    assert a + [x] + b == a + ([x] + b);
    assert ([x] + b)[1..] == b;
    KeysConcat(a + [x], b);
    KeysConcat(a, [x]);
    assert Keys([x]) == [x.0];
  }

  /**
   From an AA tree the walk returns an AA tree whose top is on the same
   level, or one level higher; the latter only when the old top had a
   `greater` child on its own level, and then the new top's `greater` child
   is on the old top's level.
   */
  lemma {:induction false} InsertWalkAA<K, V>(cmp: (K, K) -> int, node: Tree<K, V>, key: K, value: V)
    requires node.Node? && AA(node)
    ensures var r := InsertWalk(cmp, node, key, value).0;
      && AA(r)
      && (|| Lvl(r) == node.level
          || (Lvl(r) == node.level + 1 && Lvl(node.greater) == node.level && Lvl(r.greater) == node.level))
    decreases node
  {
    var dir := cmp(key, node.key);
    if dir < 0 {
      var c := if node.less.Nil? then Leaf(key, value) else InsertWalk(cmp, node.less, key, value).0;
      if node.less.Node? {
        InsertWalkAA(cmp, node.less, key, value);
      }
      RebalanceLessAA(node, c);
    } else if dir > 0 {
      var c := if node.greater.Nil? then Leaf(key, value) else InsertWalk(cmp, node.greater, key, value).0;
      if node.greater.Node? {
        InsertWalkAA(cmp, node.greater, key, value);
      }
      RebalanceGreaterAA(node, c);
    }
  }

  /**
   The way back on the `less` side: an AA node whose `less` child was
   replaced by an AA subtree on the old level, or one higher with its
   `greater` child below, is an AA tree again after skew and split.
   */
  lemma RebalanceLessAA<K, V>(node: Tree<K, V>, c: Tree<K, V>)
    requires node.Node? && AA(node) && c.Node? && AA(c)
    requires || Lvl(c) == Lvl(node.less)
             || (Lvl(c) == Lvl(node.less) + 1 && Lvl(c.greater) == Lvl(node.less))
    ensures var r := Split(Skew(node.(less := c)));
      && AA(r)
      && (|| Lvl(r) == node.level
          || (Lvl(r) == node.level + 1 && Lvl(node.greater) == node.level && Lvl(r.greater) == node.level))
  {
    var L := node.level;
    AALevels(node);
    AALevels(c);
    var t := node.(less := c);
    if Lvl(c) == L - 1 {
      assert AA(t);
      assert Skew(t) == t;
      assert Split(t) == t;
    } else {
      var inner := Node(L, c.greater, node.key, node.value, node.greater);
      assert Skew(t) == Node(L, c.less, c.key, c.value, inner);
      assert AA(inner);
      if Lvl(node.greater) == L {
        assert Split(Skew(t)) == Node(L + 1, Node(L, c.less, c.key, c.value, c.greater), node.key, node.value, node.greater);
      } else {
        assert Split(Skew(t)) == Skew(t);
      }
    }
  }

  /**
   The way back on the `greater` side: an AA node whose `greater` child was
   replaced by an AA subtree on the old level, or one higher with its own
   `greater` child on the old level, is an AA tree again after skew and
   split.
   */
  lemma RebalanceGreaterAA<K, V>(node: Tree<K, V>, c: Tree<K, V>)
    requires node.Node? && AA(node) && c.Node? && AA(c)
    requires || Lvl(c) == Lvl(node.greater)
             || (&& Lvl(c) == Lvl(node.greater) + 1
                 && (node.greater.Node? ==> Lvl(node.greater.greater) == node.greater.level)
                 && Lvl(c.greater) == Lvl(node.greater))
    ensures var r := Split(Skew(node.(greater := c)));
      && AA(r)
      && (|| Lvl(r) == node.level
          || (Lvl(r) == node.level + 1 && Lvl(node.greater) == node.level && Lvl(r.greater) == node.level))
  {
    var L := node.level;
    AALevels(node);
    AALevels(c);
    if node.greater.Node? {
      AALevels(node.greater);
    }
    assert Lvl(c) <= L;
    var t := node.(greater := c);
    assert Skew(t) == t;
    if c.greater.Node? && c.greater.level == L {
      assert Lvl(c) == L;
      var top := Node(L + 1, Node(L, node.less, node.key, node.value, c.less), c.key, c.value, c.greater);
      assert Split(t) == top;
      assert AA(top.less);
    } else {
      assert Split(t) == t;
      assert AA(t);
    }
  }

  /** Skew and split leave an AA tree as it is. */
  lemma RotationsKeepAA<K, V>(t: Tree<K, V>)
    requires t.Node? && AA(t)
    ensures Skew(t) == t && Split(t) == t
  {
    AALevels(t);
  }

  lemma {:induction false} SameShapeAA<K, V>(a: Tree<K, V>, b: Tree<K, V>)
    requires SameShape(a, b)
    ensures Lvl(a) == Lvl(b)
    ensures AA(a) <==> AA(b)
  {
    if a.Node? {
      SameShapeAA(a.less, b.less);
      SameShapeAA(a.greater, b.greater);
      assert a.greater.Node? ==> SameShape(a.greater.greater, b.greater.greater);
      if a.greater.Node? {
        SameShapeAA(a.greater.greater, b.greater.greater);
      }
    }
  }

  lemma {:induction false} SameShapeRefl<K, V>(t: Tree<K, V>)
    ensures SameShape(t, t)
  {
    if t.Node? {
      SameShapeRefl(t.less);
      SameShapeRefl(t.greater);
    }
  }

  /**
   Inserting a key that is already present into an AA tree replaces its
   value and changes nothing else: no node is added, no level moves and no
   rotation happens.
   */
  lemma {:induction false} InsertWalkPresentKeepsShape<K(!new), V>(cmp: (K, K) -> int, node: Tree<K, V>, key: K, value: V)
    requires IsCompareFn(cmp)
    requires node.Node? && AA(node) && Ordered(cmp, node)
    requires key in Keys(Entries(node))
    ensures SameShape(InsertWalk(cmp, node, key, value).0, node)
    ensures !InsertWalk(cmp, node, key, value).1
  {
    var a, x, b := Entries(node.less), (node.key, node.value), Entries(node.greater);
    assert Entries(node) == a + [x] + b;
    IncreasingSplit(cmp, a, x, b);
    assert Ordered(cmp, node.less) && Ordered(cmp, node.greater);
    var dir := cmp(key, node.key);
    if dir < 0 {
      InsertBelowStep(cmp, a, x, b, key, value);
      var c := InsertWalk(cmp, node.less, key, value).0;
      InsertWalkPresentKeepsShape(cmp, node.less, key, value);
      SameShapeAA(c, node.less);
      SameShapeRefl(node.greater);
      var t := node.(less := c);
      assert SameShape(t, node);
      SameShapeAA(t, node);
      RotationsKeepAA(t);
    } else if dir > 0 {
      InsertAboveStep(cmp, a, x, b, key, value);
      var c := InsertWalk(cmp, node.greater, key, value).0;
      InsertWalkPresentKeepsShape(cmp, node.greater, key, value);
      SameShapeAA(c, node.greater);
      SameShapeRefl(node.less);
      var t := node.(greater := c);
      assert SameShape(t, node);
      SameShapeAA(t, node);
      RotationsKeepAA(t);
    } else {
      SameShapeRefl(node.less);
      SameShapeRefl(node.greater);
    }
  }
}
