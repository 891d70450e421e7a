/**
 Removal from the tree map (treemap.go:177-268). The walk finds the node
 with the key; a node with a `less` child takes over its in-order
 predecessor's entry and the predecessor is removed from the `less` subtree
 instead, a node with only a `greater` child does the same with its
 successor, and a leaf is dropped. On the way back every remaining node
 with a child may have its level lowered, and every remaining node is
 rebalanced.

 The level recomputation of the source counts a missing `less` child as
 level 0 but ignores a missing `greater` child rather than counting it as
 level 0 too, so removal does not keep the AA invariants in general; see
 Scenarios.RemoveBreaksLevels. What removal does keep is stated here:
 the entries, the order, and the size count.
 */
module TreeRemove {
  import opened CompareFn
  import opened AssocList
  import opened TreeNodes

  /**
   The level adjustment on the way back (treemap.go:233-250). For a node
   with at least one child the candidate level is one more than the lower of
   the present children's levels (a missing `less` child counts as 0, a
   missing `greater` child is not looked at). The node, and a `greater` child
   at or above the candidate, are lowered to it; nothing is ever raised.
   */
  function AdjustLevel<K, V>(t: Tree<K, V>): (r: Tree<K, V>)
    requires t.Node?
    ensures r.Node?
    ensures Entries(r) == Entries(t)
    ensures r.level <= t.level && Lvl(r.greater) <= Lvl(t.greater)
    ensures r.less == t.less && r.key == t.key && r.value == t.value
  {
    if t.less.Nil? && t.greater.Nil? then t
    else
      var fromLess := if t.less.Node? then t.less.level else 0;
      var lowest := if t.greater.Node? && t.greater.level < fromLess then t.greater.level else fromLess;
      var maxLevel := lowest + 1;
      if t.level >= maxLevel then
        var g := if t.greater.Node? && t.greater.level >= maxLevel then t.greater.(level := maxLevel) else t.greater;
        assert Entries(g) == Entries(t.greater);
        t.(level := maxLevel, greater := g)
      else
        t
  }

  /**
   The rebalancing on the way back (treemap.go:252-264): skew the node, its
   `greater` child and that child's `greater` child, then split the node and
   its new `greater` child. The in-order entries are kept.
   */
  function RebalanceAfterRemove<K, V>(t: Tree<K, V>): (r: Tree<K, V>)
    requires t.Node?
    ensures r.Node?
    ensures Entries(r) == Entries(t)
  {
    var t1 := Skew(t);
    var t2 :=
      if t1.greater.Nil? then t1
      else
        var g := Skew(t1.greater);
        var g' := if g.greater.Nil? then g else g.(greater := Skew(g.greater));
        assert Entries(g') == Entries(g);
        t1.(greater := g');
    var t3 := Split(t2);
    if t3.greater.Nil? then t3
    else
      var t4 := t3.(greater := Split(t3.greater));
      assert Entries(t4) == Entries(t3);
      t4
  }

  /**
   The walk below a present node (treemap.go:183-268). The flag reports
   whether a node was dropped, which is the only place the source decrements
   the map's size counter.
   */
  function RemoveWalk<K, V>(cmp: (K, K) -> int, node: Tree<K, V>, key: K): (r: (Tree<K, V>, bool))
    requires node.Node?
    ensures |Entries(r.0)| + (if r.1 then 1 else 0) == |Entries(node)|
    decreases node
  {
    var dir := cmp(key, node.key);
    var (t, removed) :=
      if dir < 0 then
        if node.less.Nil? then (node, false)
        else
          var (l, rm) := RemoveWalk(cmp, node.less, key);
          (node.(less := l), rm)
      else if dir > 0 then
        if node.greater.Nil? then (node, false)
        else
          var (g, rm) := RemoveWalk(cmp, node.greater, key);
          (node.(greater := g), rm)
      else if node.less.Node? then
        var pred := Rightmost(node.less);
        var (l, rm) := RemoveWalk(cmp, node.less, pred.key);
        (Node(node.level, l, pred.key, pred.value, node.greater), rm)
      else if node.greater.Node? then
        var succ := Leftmost(node.greater);
        var (g, rm) := RemoveWalk(cmp, node.greater, succ.key);
        (Node(node.level, node.less, succ.key, succ.value, g), rm)
      else
        (Nil, true);
    if t.Nil? then (Nil, removed)
    else (RebalanceAfterRemove(AdjustLevel(t)), removed)
  }

  /**
   The walk removes from the in-order entries exactly what `RemoveFirst`
   removes, and drops a node exactly when the key was present.
   */
  lemma {:induction false} RemoveWalkEntries<K(!new), V>(cmp: (K, K) -> int, node: Tree<K, V>, key: K)
    requires IsCompareFn(cmp)
    requires node.Node? && Ordered(cmp, node)
    ensures Entries(RemoveWalk(cmp, node, key).0) == RemoveFirst(Entries(node), key)
    ensures RemoveWalk(cmp, node, key).1 <==> key in Keys(Entries(node))
    decreases node, 1
  {
    var dir := cmp(key, node.key);
    if dir < 0 {
      RemoveWalkBelow(cmp, node, key);
    } else if dir > 0 {
      RemoveWalkAbove(cmp, node, key);
    } else if node.less.Node? {
      RemoveWalkPredecessor(cmp, node, key);
    } else if node.greater.Node? {
      RemoveWalkSuccessor(cmp, node, key);
    } else {
      RemoveWalkLeaf(cmp, node, key);
    }
  }

  lemma {:induction false} RemoveWalkBelow<K(!new), V>(cmp: (K, K) -> int, node: Tree<K, V>, key: K)
    requires IsCompareFn(cmp)
    requires node.Node? && Ordered(cmp, node) && cmp(key, node.key) < 0
    ensures Entries(RemoveWalk(cmp, node, key).0) == RemoveFirst(Entries(node), key)
    ensures RemoveWalk(cmp, node, key).1 <==> key in Keys(Entries(node))
    decreases node, 0
  {
    var a, x, b := Entries(node.less), (node.key, node.value), Entries(node.greater);
    assert Entries(node) == a + [x] + b;
    IncreasingSplit(cmp, a, x, b);
    if node.less.Node? {
      RemoveWalkEntries(cmp, node.less, key);
      var l := RemoveWalk(cmp, node.less, key).0;
      assert Entries(node.(less := l)) == Entries(l) + [x] + b;
    } else {
      assert a == [];
    }
    RemoveBelowStep(cmp, a, x, b, key);
  }

  lemma {:induction false} RemoveWalkAbove<K(!new), V>(cmp: (K, K) -> int, node: Tree<K, V>, key: K)
    requires IsCompareFn(cmp)
    requires node.Node? && Ordered(cmp, node) && cmp(key, node.key) > 0
    ensures Entries(RemoveWalk(cmp, node, key).0) == RemoveFirst(Entries(node), key)
    ensures RemoveWalk(cmp, node, key).1 <==> key in Keys(Entries(node))
    decreases node, 0
  {
    var a, x, b := Entries(node.less), (node.key, node.value), Entries(node.greater);
    assert Entries(node) == a + [x] + b;
    IncreasingSplit(cmp, a, x, b);
    if node.greater.Node? {
      RemoveWalkEntries(cmp, node.greater, key);
      var g := RemoveWalk(cmp, node.greater, key).0;
      assert Entries(node.(greater := g)) == a + [x] + Entries(g);
    } else {
      assert b == [];
    }
    RemoveAboveStep(cmp, a, x, b, key);
  }

  lemma {:induction false} RemoveWalkPredecessor<K(!new), V>(cmp: (K, K) -> int, node: Tree<K, V>, key: K)
    requires IsCompareFn(cmp)
    requires node.Node? && Ordered(cmp, node) && cmp(key, node.key) == 0 && node.less.Node?
    ensures Entries(RemoveWalk(cmp, node, key).0) == RemoveFirst(Entries(node), key)
    ensures RemoveWalk(cmp, node, key).1 <==> key in Keys(Entries(node))
    decreases node, 0
  {
    var a, x, b := Entries(node.less), (node.key, node.value), Entries(node.greater);
    assert Entries(node) == a + [x] + b;
    var pred := Rightmost(node.less);
    var p := (pred.key, pred.value);
    assert a[|a| - 1] == p;
    var (l, rm) := RemoveWalk(cmp, node.less, pred.key);
    assert Entries(l) == RemoveFirst(a, pred.key) && (rm <==> pred.key in Keys(a)) by {
      IncreasingSplit(cmp, a, x, b);
      RemoveWalkEntries(cmp, node.less, pred.key);
    }
    assert pred.key in Keys(a) by {
      assert Keys(a)[|a| - 1] == pred.key;
    }
    assert RemoveFirst(a, pred.key) + [p] + b == RemoveFirst(Entries(node), key) && key in Keys(Entries(node)) by {
      RemovePredecessorStep(cmp, a, x, b, key);
    }
    var t := Node(node.level, l, pred.key, pred.value, node.greater);
    assert Entries(t) == Entries(l) + [p] + b;
  }

  lemma {:induction false} RemoveWalkSuccessor<K(!new), V>(cmp: (K, K) -> int, node: Tree<K, V>, key: K)
    requires IsCompareFn(cmp)
    requires node.Node? && Ordered(cmp, node) && cmp(key, node.key) == 0 && node.less.Nil? && node.greater.Node?
    ensures Entries(RemoveWalk(cmp, node, key).0) == RemoveFirst(Entries(node), key)
    ensures RemoveWalk(cmp, node, key).1 <==> key in Keys(Entries(node))
    decreases node, 0
  {
    var x, b := (node.key, node.value), Entries(node.greater);
    assert Entries(node) == [x] + b;
    var succ := Leftmost(node.greater);
    var q := (succ.key, succ.value);
    assert b[0] == q;
    var (g, rm) := RemoveWalk(cmp, node.greater, succ.key);
    assert Entries(g) == RemoveFirst(b, succ.key) && (rm <==> succ.key in Keys(b)) by {
      IncreasingSplit(cmp, [], x, b);
      RemoveWalkEntries(cmp, node.greater, succ.key);
    }
    assert succ.key in Keys(b) by {
      assert Keys(b)[0] == succ.key;
    }
    assert [q] + RemoveFirst(b, succ.key) == RemoveFirst(Entries(node), key) && key in Keys(Entries(node)) by {
      assert key == x.0;
      RemoveSuccessorStep(x, b, key);
    }
    var t := Node(node.level, node.less, succ.key, succ.value, g);
    assert Entries(t) == [q] + Entries(g);
  }

  /** A leaf holding the key is dropped (treemap.go:227-230). */
  lemma RemoveWalkLeaf<K(!new), V>(cmp: (K, K) -> int, node: Tree<K, V>, key: K)
    requires IsCompareFn(cmp)
    requires node.Node? && cmp(key, node.key) == 0 && node.less.Nil? && node.greater.Nil?
    ensures Entries(RemoveWalk(cmp, node, key).0) == RemoveFirst(Entries(node), key)
    ensures RemoveWalk(cmp, node, key).1 <==> key in Keys(Entries(node))
  {
    var x := (node.key, node.value);
    assert key == node.key;
    assert Entries(node) == [x];
    assert Keys([x])[0] == key;
    assert RemoveWalk(cmp, node, key) == (Nil, true);
  }

  /** A key none of whose entries carries is not among the keys, and removing it changes nothing. */
  lemma KeyAbsent<K, V>(s: seq<(K, V)>, k: K)
    requires forall i :: 0 <= i < |s| ==> s[i].0 != k
    ensures k !in Keys(s)
    ensures RemoveFirst(s, k) == s
  {
    RemoveFirstSplice(s, k);
  }

  /** A key below the node's key is removed from the `less` part only. */
  lemma RemoveBelowStep<K(!new), V>(cmp: (K, K) -> int, a: seq<(K, V)>, x: (K, V), b: seq<(K, V)>, key: K)
    requires IsCompareFn(cmp) && Increasing(cmp, a + [x] + b) && cmp(key, x.0) < 0
    ensures RemoveFirst(a + [x] + b, key) == RemoveFirst(a, key) + [x] + b
    ensures key in Keys(a + [x] + b) <==> key in Keys(a)
  {
    var rest := [x] + b;
    assert forall i :: 0 <= i < |rest| ==> rest[i].0 != key by {
      IncreasingSplit(cmp, a, x, b);
      forall i | 0 <= i < |rest|
        ensures rest[i].0 != key
      {
        if i > 0 {
          assert rest[i] == b[i - 1];
          assert cmp(x.0, b[i - 1].0) < 0;
        }
      }
    }
    KeyAbsent(rest, key);
    KeysConcat(a, rest);
    assert a + [x] + b == a + rest;
    RemoveFirstConcat(a, rest, key);
    RemoveFirstSplice(a, key);
  }


  /** A key above the node's key is removed from the `greater` part only. */
  lemma RemoveAboveStep<K(!new), V>(cmp: (K, K) -> int, a: seq<(K, V)>, x: (K, V), b: seq<(K, V)>, key: K)
    requires IsCompareFn(cmp) && Increasing(cmp, a + [x] + b) && cmp(key, x.0) > 0
    ensures RemoveFirst(a + [x] + b, key) == a + [x] + RemoveFirst(b, key)
    ensures key in Keys(a + [x] + b) <==> key in Keys(b)
  {
    var front := a + [x];
    assert forall i :: 0 <= i < |front| ==> front[i].0 != key by {
      IncreasingSplit(cmp, a, x, b);
      forall i | 0 <= i < |front|
        ensures front[i].0 != key
      {
        if i < |a| {
          assert front[i] == a[i];
          assert cmp(a[i].0, x.0) < 0;
        }
      }
    }
    KeyAbsent(front, key);
    KeysConcat(front, b);
    RemoveFirstConcat(front, b, key);
  }


  /** The node's own key is removed at the node: what remains is both parts joined. */
  lemma RemoveEqualStep<K(!new), V>(cmp: (K, K) -> int, a: seq<(K, V)>, x: (K, V), b: seq<(K, V)>, key: K)
    requires IsCompareFn(cmp) && Increasing(cmp, a + [x] + b) && cmp(key, x.0) == 0
    ensures RemoveFirst(a + [x] + b, key) == a + b
    ensures key in Keys(a + [x] + b)
  {
    assert forall i :: 0 <= i < |a| ==> a[i].0 != key by {
      IncreasingSplit(cmp, a, x, b);
      forall i | 0 <= i < |a|
        ensures a[i].0 != key
      {
        assert cmp(a[i].0, x.0) < 0;
      }
    }
    assert key == x.0;
    KeyAbsent(a, key);
    var rest := [x] + b;
    KeysConcat(a, rest);
    assert Keys(rest)[0] == key;
    assert a + [x] + b == a + rest;
    RemoveFirstConcat(a, rest, key);
    assert rest[1..] == b;
  }


  /**
   Removing the node's own key when it has a `less` part: the last entry of
   that part takes the node's place and is removed from the part.
   */
  lemma RemovePredecessorStep<K(!new), V>(cmp: (K, K) -> int, a: seq<(K, V)>, x: (K, V), b: seq<(K, V)>, key: K)
    requires IsCompareFn(cmp) && Increasing(cmp, a + [x] + b) && cmp(key, x.0) == 0 && |a| > 0
    ensures RemoveFirst(a, a[|a| - 1].0) + [a[|a| - 1]] + b == RemoveFirst(a + [x] + b, key)
    ensures key in Keys(a + [x] + b)
  {
    RemoveEqualStep(cmp, a, x, b, key);
    IncreasingSplit(cmp, a, x, b);
    RemoveLast(cmp, a);
    assert a == a[..|a| - 1] + [a[|a| - 1]];
  }

  /**
   Removing the node's own key when it has no `less` part and a `greater`
   part: the first entry of that part takes the node's place and is removed
   from the part.
   */
  lemma RemoveSuccessorStep<K, V>(x: (K, V), b: seq<(K, V)>, key: K)
    requires key == x.0 && |b| > 0
    ensures [b[0]] + RemoveFirst(b, b[0].0) == RemoveFirst([x] + b, key)
    ensures key in Keys([x] + b)
  {
    assert ([x] + b)[1..] == b;
    assert Keys([x] + b)[0] == key;
    assert RemoveFirst([x] + b, key) == b;
    assert RemoveFirst(b, b[0].0) == b[1..];
    assert [b[0]] + b[1..] == b;
  }

  /** In a sorted sequence, removing the last entry's key removes the last entry. */
  lemma RemoveLast<K(!new), V>(cmp: (K, K) -> int, s: seq<(K, V)>)
    requires IsCompareFn(cmp) && Increasing(cmp, s) && |s| > 0
    ensures RemoveFirst(s, s[|s| - 1].0) == s[..|s| - 1]
  {
    var n := |s| - 1;
    forall i | 0 <= i < n
      ensures s[i].0 != s[n].0
    {
      assert cmp(s[i].0, s[n].0) < 0;
    }
    RemoveDistinctLast(s);
  }

  /** Removing a key that only the last entry carries removes the last entry. */
  lemma {:induction false} RemoveDistinctLast<K, V>(s: seq<(K, V)>)
    requires |s| > 0
    requires forall i :: 0 <= i < |s| - 1 ==> s[i].0 != s[|s| - 1].0
    ensures RemoveFirst(s, s[|s| - 1].0) == s[..|s| - 1]
  {
    var k := s[|s| - 1].0;
    if |s| > 1 {
      var t := s[1..];
      assert t[|t| - 1] == s[|s| - 1];
      forall i | 0 <= i < |t| - 1
        ensures t[i].0 != t[|t| - 1].0
      {
        assert t[i] == s[i + 1];
      }
      RemoveDistinctLast(t);
      assert s[..|s| - 1] == [s[0]] + t[..|t| - 1];
    }
  }

  /** On an AA tree the level adjustment changes nothing. */
  lemma AdjustLevelKeepsAA<K, V>(t: Tree<K, V>)
    requires t.Node? && AA(t)
    ensures AdjustLevel(t) == t
  {
    AALevels(t);
    if t.greater.Node? {
      assert t.greater.(level := t.level - 1) == t.greater || t.greater.level != t.level - 1;
    }
  }

  /** On an AA tree the rebalancing changes nothing. */
  lemma RebalanceKeepsAA<K, V>(t: Tree<K, V>)
    requires t.Node? && AA(t)
    ensures RebalanceAfterRemove(t) == t
  {
    AALevels(t);
    assert Skew(t) == t;
    if t.greater.Node? {
      AALevels(t.greater);
      assert Skew(t.greater) == t.greater;
      if t.greater.greater.Node? {
        AALevels(t.greater.greater);
        assert Skew(t.greater.greater) == t.greater.greater;
      }
    }
    assert Split(t) == t;
    if t.greater.Node? {
      assert Split(t.greater) == t.greater;
    }
  }

  /**
   Removing an absent key from an AA tree leaves the tree exactly as it was:
   no level is lowered and no rotation happens on the searched path.
   */
  lemma {:induction false} RemoveWalkAbsentKeepsAA<K(!new), V>(cmp: (K, K) -> int, node: Tree<K, V>, key: K)
    requires IsCompareFn(cmp)
    requires node.Node? && AA(node) && Ordered(cmp, node)
    requires key !in Keys(Entries(node))
    ensures RemoveWalk(cmp, node, key) == (node, false)
  {
    var a, x, b := Entries(node.less), (node.key, node.value), Entries(node.greater);
    assert Entries(node) == a + [x] + b;
    IncreasingSplit(cmp, a, x, b);
    KeysConcat(a + [x], b);
    KeysConcat(a, [x]);
    assert Keys([x]) == [x.0];
    assert Keys(Entries(node))[|a|] == node.key;
    if cmp(key, node.key) < 0 {
      if node.less.Node? {
        RemoveWalkAbsentKeepsAA(cmp, node.less, key);
        assert node.(less := node.less) == node;
      }
    } else {
      if node.greater.Node? {
        RemoveWalkAbsentKeepsAA(cmp, node.greater, key);
        assert node.(greater := node.greater) == node;
      }
    }
    AdjustLevelKeepsAA(node);
    RebalanceKeepsAA(node);
  }
}
