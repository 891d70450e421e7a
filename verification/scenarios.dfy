/**
 Concrete runs of both maps with integer keys under `CompareInt`, each
 showing a behaviour of the source that the general contracts leave open.
 */
module Scenarios {
  import opened Optional
  import opened AssocList
  import opened TreeNodes
  import opened TreeCursor
  import opened TreeMaps
  import opened VMaps
  import opened StdCompare
  import TreeRemove

  /** Keys 1, 2 and 3 inserted in that order into an empty tree map. */
  function ThreeKeys(): TreeMap<int, int> {
    TreeMaps.Insert(TreeMaps.Insert(TreeMaps.Insert(NewTreeMap(CompareInt), 1, 10), 2, 20), 3, 30)
  }

  /** The three insertions end in the balanced tree 2 over 1 and 3. */
  lemma ThreeKeysBalanced()
    ensures ThreeKeys().root == Node(2, Leaf(1, 10), 2, 20, Leaf(3, 30))
    ensures AA(ThreeKeys().root) && ThreeKeys().size == 3
  {
  }

  /**
   Removal does not keep the AA levels (treemap.go:233-250): the level
   recomputation ignores a missing `greater` child, so removing 3 leaves the
   root at level 2 with no `greater` child, and removing 1 next leaves a
   leaf at level 2. The entries are still right.
   */
  lemma RemoveBreaksLevels()
    ensures TreeMaps.Remove(ThreeKeys(), 3).root == Node(2, Leaf(1, 10), 2, 20, Nil)
    ensures !AA(TreeMaps.Remove(ThreeKeys(), 3).root)
    ensures TreeMaps.Remove(TreeMaps.Remove(ThreeKeys(), 3), 1).root == Node(2, Nil, 2, 20, Nil)
    ensures Entries(TreeMaps.Remove(TreeMaps.Remove(ThreeKeys(), 3), 1).root) == [(2, 20)]
  {
    ThreeKeysBalanced();
    var t := TreeMaps.Remove(TreeMaps.Remove(ThreeKeys(), 3), 1).root;
    assert Entries(t) == [] + [(2, 20)] + [];
  }

  /**
   The predecessor as written (treemap.go:71-95) steps forward from a node
   without a `less` child: from the first entry, 1, it reaches 2, where the
   in-order predecessor is none.
   */
  lemma PredecessorAsWrittenOvershoots()
    ensures var c := LeftmostCursor(ThreeKeys().root, []);
      && c.focus.key == 1
      && Preceding(c) == []
      && Predecessor(c).None?
      && PredecessorAsWritten(c).Some?
      && PredecessorAsWritten(c).value.focus.key == 2
  {
    ThreeKeysBalanced();
    var c := LeftmostCursor(ThreeKeys().root, []);
    assert c == Cursor(Leaf(1, 10), [LessOf(2, 2, 20, Leaf(3, 30))]);
  }

  /**
   The linked-list map keeps duplicate keys: after appending key 7 twice a
   lookup finds the first value, and removing key 7 once uncovers the second.
   */
  lemma DuplicateKeysShadow()
    ensures var m0 := NewVMap<int, int>(CompareInt);
      var m1 := VMaps.Append(m0, 7, 1);
      var m2 := VMaps.Append(m1, 7, 2);
      var s := View(m2, [0, 1]);
      && Linked(m2, [0, 1])
      && s == [(7, 1), (7, 2)]
      && Lookup(s, 7) == Some(1)
      && Lookup(RemoveFirst(s, 7), 7) == Some(2)
  {
    var m0 := NewVMap<int, int>(CompareInt);
    var m1 := VMaps.Append(m0, 7, 1);
    AppendLinked(m0, [], 7, 1);
    AppendLinked(m1, [0], 7, 2);
    var s := View(VMaps.Append(m1, 7, 2), [0, 1]);
    assert RemoveFirst(s, 7) == [(7, 2)];
  }

  // ---------------------------------------------------------------------
  // Once removal has broken the AA levels, later operations restructure

  /**
   Keys 8, 10, 11, 6, 4, 9, 5, 7, 1, 3, 2 inserted in that order, all with
   value 0, then keys 4, 2 and 1 removed.
   */
  function Pruned(): TreeMap<int, int> {
    var m0 := NewTreeMap(CompareInt);
    var m1 := TreeMaps.Insert(m0, 8, 0);
    var m2 := TreeMaps.Insert(m1, 10, 0);
    var m3 := TreeMaps.Insert(m2, 11, 0);
    var m4 := TreeMaps.Insert(m3, 6, 0);
    var m5 := TreeMaps.Insert(m4, 4, 0);
    var m6 := TreeMaps.Insert(m5, 9, 0);
    var m7 := TreeMaps.Insert(m6, 5, 0);
    var m8 := TreeMaps.Insert(m7, 7, 0);
    var m9 := TreeMaps.Insert(m8, 1, 0);
    var m10 := TreeMaps.Insert(m9, 3, 0);
    var m11 := TreeMaps.Insert(m10, 2, 0);
    var m12 := TreeMaps.Remove(m11, 4);
    var m13 := TreeMaps.Remove(m12, 2);
    var m14 := TreeMaps.Remove(m13, 1);
    m14
  }

  lemma InsertStep01()
    ensures TreeMaps.Insert(TreeMap(Nil, 0, CompareInt), 8, 0)
      == TreeMap(Leaf(8, 0), 1, CompareInt)
  {
  }

  lemma InsertStep02()
    ensures TreeMaps.Insert(TreeMap(Leaf(8, 0), 1, CompareInt), 10, 0)
      == TreeMap(Node(1, Nil, 8, 0, Leaf(10, 0)), 2, CompareInt)
  {
  }

  lemma InsertStep03()
    ensures TreeMaps.Insert(TreeMap(Node(1, Nil, 8, 0, Leaf(10, 0)), 2, CompareInt), 11, 0)
      == TreeMap(Node(2, Leaf(8, 0), 10, 0, Leaf(11, 0)), 3, CompareInt)
  {
  }

  lemma InsertStep04()
    ensures TreeMaps.Insert(TreeMap(Node(2, Leaf(8, 0), 10, 0, Leaf(11, 0)), 3, CompareInt), 6, 0)
      == TreeMap(Node(2, Node(1, Nil, 6, 0, Leaf(8, 0)), 10, 0, Leaf(11, 0)), 4, CompareInt)
  {
  }

  lemma InsertStep05()
    ensures TreeMaps.Insert(TreeMap(Node(2, Node(1, Nil, 6, 0, Leaf(8, 0)), 10, 0, Leaf(11, 0)), 4, CompareInt), 4, 0)
      == TreeMap(Node(2, Leaf(4, 0), 6, 0, Node(2, Leaf(8, 0), 10, 0, Leaf(11, 0))), 5, CompareInt)
  {
  }

  lemma InsertStep06()
    ensures TreeMaps.Insert(TreeMap(Node(2, Leaf(4, 0), 6, 0, Node(2, Leaf(8, 0), 10, 0, Leaf(11, 0))), 5, CompareInt), 9, 0)
      == TreeMap(Node(2, Leaf(4, 0), 6, 0, Node(2, Node(1, Nil, 8, 0, Leaf(9, 0)), 10, 0, Leaf(11, 0))), 6, CompareInt)
  {
  }

  lemma InsertStep07()
    ensures TreeMaps.Insert(TreeMap(Node(2, Leaf(4, 0), 6, 0, Node(2, Node(1, Nil, 8, 0, Leaf(9, 0)), 10, 0, Leaf(11, 0))), 6, CompareInt), 5, 0)
      == TreeMap(Node(2, Node(1, Nil, 4, 0, Leaf(5, 0)), 6, 0, Node(2, Node(1, Nil, 8, 0, Leaf(9, 0)), 10, 0, Leaf(11, 0))), 7, CompareInt)
  {
  }

  lemma InsertStep08()
    ensures TreeMaps.Insert(TreeMap(Node(2, Node(1, Nil, 4, 0, Leaf(5, 0)), 6, 0, Node(2, Node(1, Nil, 8, 0, Leaf(9, 0)), 10, 0, Leaf(11, 0))), 7, CompareInt), 7, 0)
      == TreeMap(Node(3, Node(2, Node(1, Nil, 4, 0, Leaf(5, 0)), 6, 0, Leaf(7, 0)), 8, 0, Node(2, Leaf(9, 0), 10, 0, Leaf(11, 0))), 8, CompareInt)
  {
  }

  lemma InsertStep09()
    ensures TreeMaps.Insert(TreeMap(Node(3, Node(2, Node(1, Nil, 4, 0, Leaf(5, 0)), 6, 0, Leaf(7, 0)), 8, 0, Node(2, Leaf(9, 0), 10, 0, Leaf(11, 0))), 8, CompareInt), 1, 0)
      == TreeMap(Node(3, Node(2, Leaf(1, 0), 4, 0, Node(2, Leaf(5, 0), 6, 0, Leaf(7, 0))), 8, 0, Node(2, Leaf(9, 0), 10, 0, Leaf(11, 0))), 9, CompareInt)
  {
  }

  lemma InsertStep10()
    ensures TreeMaps.Insert(TreeMap(Node(3, Node(2, Leaf(1, 0), 4, 0, Node(2, Leaf(5, 0), 6, 0, Leaf(7, 0))), 8, 0, Node(2, Leaf(9, 0), 10, 0, Leaf(11, 0))), 9, CompareInt), 3, 0)
      == TreeMap(Node(3, Node(2, Node(1, Nil, 1, 0, Leaf(3, 0)), 4, 0, Node(2, Leaf(5, 0), 6, 0, Leaf(7, 0))), 8, 0, Node(2, Leaf(9, 0), 10, 0, Leaf(11, 0))), 10, CompareInt)
  {
  }

  lemma InsertStep11()
    ensures TreeMaps.Insert(TreeMap(Node(3, Node(2, Node(1, Nil, 1, 0, Leaf(3, 0)), 4, 0, Node(2, Leaf(5, 0), 6, 0, Leaf(7, 0))), 8, 0, Node(2, Leaf(9, 0), 10, 0, Leaf(11, 0))), 10, CompareInt), 2, 0)
      == TreeMap(Node(3, Node(2, Leaf(1, 0), 2, 0, Leaf(3, 0)), 4, 0, Node(3, Node(2, Leaf(5, 0), 6, 0, Leaf(7, 0)), 8, 0, Node(2, Leaf(9, 0), 10, 0, Leaf(11, 0)))), 11, CompareInt)
  {
  }

  lemma RemoveStep1()
    ensures TreeMaps.Remove(TreeMap(Node(3, Node(2, Leaf(1, 0), 2, 0, Leaf(3, 0)), 4, 0, Node(3, Node(2, Leaf(5, 0), 6, 0, Leaf(7, 0)), 8, 0, Node(2, Leaf(9, 0), 10, 0, Leaf(11, 0)))), 11, CompareInt), 4)
      == TreeMap(Node(3, Node(2, Leaf(1, 0), 2, 0, Nil), 3, 0, Node(3, Node(2, Leaf(5, 0), 6, 0, Leaf(7, 0)), 8, 0, Node(2, Leaf(9, 0), 10, 0, Leaf(11, 0)))), 10, CompareInt)
  {
    PredecessorRemoved();
  }

  /** Inside `RemoveStep1`: the predecessor 3 leaves the `less` subtree of the root 4. */
  lemma PredecessorRemoved()
    ensures TreeRemove.RemoveWalk(CompareInt, Node(2, Leaf(1, 0), 2, 0, Leaf(3, 0)), 3) == (Node(2, Leaf(1, 0), 2, 0, Nil), true)
  {
  }

  lemma RemoveStep2()
    ensures TreeMaps.Remove(TreeMap(Node(3, Node(2, Leaf(1, 0), 2, 0, Nil), 3, 0, Node(3, Node(2, Leaf(5, 0), 6, 0, Leaf(7, 0)), 8, 0, Node(2, Leaf(9, 0), 10, 0, Leaf(11, 0)))), 10, CompareInt), 2)
      == TreeMap(Node(3, Node(2, Nil, 1, 0, Nil), 3, 0, Node(3, Node(2, Leaf(5, 0), 6, 0, Leaf(7, 0)), 8, 0, Node(2, Leaf(9, 0), 10, 0, Leaf(11, 0)))), 9, CompareInt)
  {
    LevelTwoLeafLeft();
  }

  /** Inside `RemoveStep2`: 2 gives way to its predecessor 1, which keeps level 2 with no children. */
  lemma LevelTwoLeafLeft()
    ensures TreeRemove.RemoveWalk(CompareInt, Node(2, Leaf(1, 0), 2, 0, Nil), 2) == (Node(2, Nil, 1, 0, Nil), true)
  {
  }

  lemma RemoveStep3()
    ensures TreeMaps.Remove(TreeMap(Node(3, Node(2, Nil, 1, 0, Nil), 3, 0, Node(3, Node(2, Leaf(5, 0), 6, 0, Leaf(7, 0)), 8, 0, Node(2, Leaf(9, 0), 10, 0, Leaf(11, 0)))), 9, CompareInt), 1)
      == TreeMap(Node(1, Nil, 3, 0, Node(3, Node(1, Node(2, Leaf(5, 0), 6, 0, Leaf(7, 0)), 8, 0, Leaf(9, 0)), 10, 0, Leaf(11, 0))), 8, CompareInt)
  {
  }

  /** The tree `Pruned` ends in, one operation at a time. */
  lemma PrunedTree()
    ensures Pruned() == TreeMap(Node(1, Nil, 3, 0, Node(3, Node(1, Node(2, Leaf(5, 0), 6, 0, Leaf(7, 0)), 8, 0, Leaf(9, 0)), 10, 0, Leaf(11, 0))), 8, CompareInt)
  {
    InsertStep01(); InsertStep02(); InsertStep03(); InsertStep04(); InsertStep05(); InsertStep06(); InsertStep07(); InsertStep08(); InsertStep09(); InsertStep10(); InsertStep11(); RemoveStep1(); RemoveStep2(); RemoveStep3();
  }

  lemma OverwriteStep()
    ensures TreeMaps.Insert(TreeMap(Node(1, Nil, 3, 0, Node(3, Node(1, Node(2, Leaf(5, 0), 6, 0, Leaf(7, 0)), 8, 0, Leaf(9, 0)), 10, 0, Leaf(11, 0))), 8, CompareInt), 5, 1)
      == TreeMap(Node(4, Node(1, Nil, 3, 0, Node(1, Node(2, Leaf(5, 1), 6, 0, Leaf(7, 0)), 8, 0, Leaf(9, 0))), 10, 0, Leaf(11, 0)), 8, CompareInt)
  {
  }

  /**
   Overwriting a present key need not keep the tree's shape (treemap.go:157-158,
   167-168, 170-172): the overwrite itself changes only the value, but every
   node above it still runs skew and split on the way back, and in a tree
   that removals have left without the AA levels these rotate. Here
   overwriting key 5 lifts key 10 to a new root on level 4.
   */
  lemma OverwriteRestructures()
    ensures !AA(Pruned().root)
    ensures TreeMaps.Get(Pruned(), 5) == Some(0)
    ensures TreeMaps.Insert(Pruned(), 5, 1).size == Pruned().size
    ensures TreeMaps.Insert(Pruned(), 5, 1).root.key == 10 && TreeMaps.Insert(Pruned(), 5, 1).root.level == 4
    ensures !SameShape(TreeMaps.Insert(Pruned(), 5, 1).root, Pruned().root)
  {
    PrunedTree();
    OverwriteStep();
  }

  /**
   Removing an absent key need not leave the map unchanged (treemap.go:233-250):
   the level adjustment runs on the way back whether or not a node was
   dropped. After removing 3 and 1 from the three-key tree and inserting 3
   again, removing the absent key 0 lowers the root from level 2 to 1.
   */
  lemma AbsentRemovalLowersLevel()
    ensures var m := TreeMaps.Insert(TreeMaps.Remove(TreeMaps.Remove(ThreeKeys(), 3), 1), 3, 30);
      && m.root == Node(2, Nil, 2, 20, Leaf(3, 30))
      && 0 !in Keys(Entries(m.root))
      && TreeMaps.Remove(m, 0).root == Node(1, Nil, 2, 20, Leaf(3, 30))
      && TreeMaps.Remove(m, 0).size == m.size
      && TreeMaps.Remove(m, 0) != m
  {
    RemoveBreaksLevels();
  }
}
