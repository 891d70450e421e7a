/**
 In-order navigation of the tree map (treemap.go:45-95).

 The source walks upwards through each node's `parent` link. Here the same
 information is a path of frames from the focused subtree up to the root: a
 frame records the node the walk came from and on which side of it the
 focused subtree hangs (the source's test `parent.less == node`). Plugging
 the focus back into its path rebuilds the whole tree.
 */
module TreeCursor {
  import opened Optional
  import opened TreeNodes

  /** One step up from a subtree: the parent node with the subtree left out. */
  datatype Frame<K, V> =
    | LessOf(level: int, key: K, value: V, greater: Tree<K, V>)   // the subtree is the parent's `less` child
    | GreaterOf(level: int, less: Tree<K, V>, key: K, value: V)   // the subtree is the parent's `greater` child

  /** A node of a tree together with the path to the root, innermost frame first. */
  datatype Cursor<K, V> = Cursor(focus: Tree<K, V>, path: seq<Frame<K, V>>)

  /** The parent node rebuilt around the subtree `t`. */
  function Attach<K, V>(f: Frame<K, V>, t: Tree<K, V>): Tree<K, V> {
    match f
    case LessOf(l, k, v, g) => Node(l, t, k, v, g)
    case GreaterOf(l, le, k, v) => Node(l, le, k, v, t)
  }

  /** The whole tree rebuilt around the subtree `t`. */
  function Plug<K, V>(t: Tree<K, V>, path: seq<Frame<K, V>>): Tree<K, V>
    decreases |path|
  {
    if path == [] then t else Plug(Attach(path[0], t), path[1..])
  }

  /** The entries the path places after the subtree, in in-order. */
  ghost function PathAfter<K, V>(path: seq<Frame<K, V>>): seq<(K, V)>
    decreases |path|
  {
    if path == [] then []
    else match path[0]
      case LessOf(_, k, v, g) => [(k, v)] + Entries(g) + PathAfter(path[1..])
      case GreaterOf(_, _, _, _) => PathAfter(path[1..])
  }

  /** The entries the path places before the subtree, in in-order. */
  ghost function PathBefore<K, V>(path: seq<Frame<K, V>>): seq<(K, V)>
    decreases |path|
  {
    if path == [] then []
    else match path[0]
      case LessOf(_, _, _, _) => PathBefore(path[1..])
      case GreaterOf(_, le, k, v) => PathBefore(path[1..]) + Entries(le) + [(k, v)]
  }

  /** The entries an in-order walk still yields from the cursor on, the cursor's own first. */
  ghost function Remaining<K, V>(c: Cursor<K, V>): seq<(K, V)>
    requires c.focus.Node?
  {
    [(c.focus.key, c.focus.value)] + Entries(c.focus.greater) + PathAfter(c.path)
  }

  /** The entries an in-order walk yields before reaching the cursor. */
  ghost function Preceding<K, V>(c: Cursor<K, V>): seq<(K, V)>
    requires c.focus.Node?
  {
    PathBefore(c.path) + Entries(c.focus.less)
  }

  /** The tree's entries are those before the subtree, the subtree's, and those after. */
  lemma {:induction false} PlugEntries<K, V>(t: Tree<K, V>, path: seq<Frame<K, V>>)
    ensures Entries(Plug(t, path)) == PathBefore(path) + Entries(t) + PathAfter(path)
    decreases |path|
  {
    if path != [] {
      var p := Attach(path[0], t);
      PlugEntries(p, path[1..]);
      match path[0]
      case LessOf(l, k, v, g) =>
        assert Entries(p) == Entries(t) + [(k, v)] + Entries(g);
      case GreaterOf(l, le, k, v) =>
        assert Entries(p) == Entries(le) + [(k, v)] + Entries(t);
    }
  }

  /** A cursor splits the tree's entries into those before it and those remaining. */
  lemma CursorSplitsEntries<K, V>(c: Cursor<K, V>)
    requires c.focus.Node?
    ensures Entries(Plug(c.focus, c.path)) == Preceding(c) + Remaining(c)
  {
    PlugEntries(c.focus, c.path);
    assert Entries(c.focus) == Entries(c.focus.less) + [(c.focus.key, c.focus.value)] + Entries(c.focus.greater);
  }

  /**
   Pushing a frame onto a path: the tree rebuilt is the same, and the frame
   adds its own entry and its other subtree on the side it keeps them.
   */
  lemma Push<K, V>(f: Frame<K, V>, t: Tree<K, V>, path: seq<Frame<K, V>>)
    ensures Plug(t, [f] + path) == Plug(Attach(f, t), path)
    ensures f.LessOf? ==>
      && PathAfter([f] + path) == [(f.key, f.value)] + Entries(f.greater) + PathAfter(path)
      && PathBefore([f] + path) == PathBefore(path)
    ensures f.GreaterOf? ==>
      && PathAfter([f] + path) == PathAfter(path)
      && PathBefore([f] + path) == PathBefore(path) + Entries(f.less) + [(f.key, f.value)]
  {
    assert ([f] + path)[0] == f;
    assert ([f] + path)[1..] == path;
  }

  /**
   Descending through `less` links to the first entry of `t`
   (treemap.go:51-54, 124-131): the cursor reached still plugs into the same
   tree, its node has no `less` child, and what remains is all of `t`
   followed by what the path places after `t`.
   */
  function LeftmostCursor<K, V>(t: Tree<K, V>, path: seq<Frame<K, V>>): (r: Cursor<K, V>)
    requires t.Node?
    ensures r.focus.Node? && r.focus.less.Nil?
    ensures Plug(r.focus, r.path) == Plug(t, path)
    ensures Remaining(r) == Entries(t) + PathAfter(path)
    ensures Preceding(r) == PathBefore(path)
    decreases t
  {
    if t.less.Nil? then
      assert Entries(t) == [] + [(t.key, t.value)] + Entries(t.greater);
      Cursor(t, path)
    else
      var f := LessOf(t.level, t.key, t.value, t.greater);
      assert Attach(f, t.less) == t;
      Push(f, t.less, path);
      var r := LeftmostCursor(t.less, [f] + path);
      assert Remaining(r) == Entries(t.less) + ([(t.key, t.value)] + Entries(t.greater) + PathAfter(path));
      assert Entries(t) == Entries(t.less) + [(t.key, t.value)] + Entries(t.greater);
      r
  }

  /**
   Descending through `greater` links to the last entry of `t`
   (treemap.go:77-80): the mirror image of `LeftmostCursor`.
   */
  function RightmostCursor<K, V>(t: Tree<K, V>, path: seq<Frame<K, V>>): (r: Cursor<K, V>)
    requires t.Node?
    ensures r.focus.Node? && r.focus.greater.Nil?
    ensures Plug(r.focus, r.path) == Plug(t, path)
    ensures Preceding(r) + [(r.focus.key, r.focus.value)] == PathBefore(path) + Entries(t)
    ensures Remaining(r) == [(r.focus.key, r.focus.value)] + PathAfter(path)
    decreases t
  {
    if t.greater.Nil? then
      assert Entries(t) == Entries(t.less) + [(t.key, t.value)] + [];
      Cursor(t, path)
    else
      var f := GreaterOf(t.level, t.less, t.key, t.value);
      assert Attach(f, t.greater) == t;
      Push(f, t.greater, path);
      var r := RightmostCursor(t.greater, [f] + path);
      assert PathBefore(path) + Entries(t)
        == (PathBefore(path) + Entries(t.less) + [(t.key, t.value)]) + Entries(t.greater);
      r
  }

  /**
   Climbing from the subtree `t` while it is its parent's `greater` child,
   then one step further (treemap.go:57-64): the node reached is the first
   one whose `less` subtree contains `t`, or none when there is no such node.
   The result is none exactly when the path places nothing after `t`, and
   otherwise what remains from it is what the path places after `t`.
   */
  function Ascend<K, V>(t: Tree<K, V>, path: seq<Frame<K, V>>): (r: Option<Cursor<K, V>>)
    ensures r.None? <==> PathAfter(path) == []
    ensures r.Some? ==> r.value.focus.Node? && Remaining(r.value) == PathAfter(path)
    ensures r.Some? ==> Plug(r.value.focus, r.value.path) == Plug(t, path)
    decreases |path|
  {
    if path == [] then None
    else
      var rest := path[1..];
      match path[0]
      case LessOf(l, k, v, g) =>
        var c := Cursor(Node(l, t, k, v, g), rest);
        assert Remaining(c) == [(k, v)] + Entries(g) + PathAfter(rest);
        Some(c)
      case GreaterOf(l, le, k, v) =>
        Ascend(Node(l, le, k, v, t), rest)
  }

  /**
   The in-order successor (treemap.go:45-69): the leftmost node of the
   `greater` subtree if there is one, otherwise the node found by climbing.
   It is none exactly when the cursor's entry is the last one, and otherwise
   the walk from it yields the remaining entries after the cursor's own.
   */
  function Successor<K, V>(c: Cursor<K, V>): (r: Option<Cursor<K, V>>)
    requires c.focus.Node?
    ensures r.None? <==> |Remaining(c)| == 1
    ensures r.Some? ==> r.value.focus.Node? && Remaining(r.value) == Remaining(c)[1..]
    ensures r.Some? ==> Plug(r.value.focus, r.value.path) == Plug(c.focus, c.path)
  {
    var n := c.focus;
    if n.greater.Node? then
      var f := GreaterOf(n.level, n.less, n.key, n.value);
      assert Attach(f, n.greater) == n;
      Push(f, n.greater, c.path);
      Some(LeftmostCursor(n.greater, [f] + c.path))
    else
      assert Remaining(c) == [(n.key, n.value)] + PathAfter(c.path);
      Ascend(n, c.path)
  }

  /**
   The in-order predecessor as the source writes it (treemap.go:71-95): the
   rightmost node of the `less` subtree if there is one, otherwise the same
   climb as `Successor`, which stops at the first ancestor of which the node
   is in the `less` subtree, an ancestor whose key is greater.

   With a `less` child the result is the true predecessor. Without one it
   is none exactly when nothing follows the node's subtree, and otherwise
   the node from which exactly what follows that subtree remains: an entry
   after the cursor's own, not before it.
   */
  function PredecessorAsWritten<K, V>(c: Cursor<K, V>): (r: Option<Cursor<K, V>>)
    requires c.focus.Node?
    ensures r.Some? ==> r.value.focus.Node? && Plug(r.value.focus, r.value.path) == Plug(c.focus, c.path)
    ensures c.focus.less.Node? ==>
      r.Some? && Preceding(r.value) + [(r.value.focus.key, r.value.focus.value)] == Preceding(c)
    ensures c.focus.less.Nil? ==> (r.None? <==> PathAfter(c.path) == [])
    ensures c.focus.less.Nil? && r.Some? ==> Remaining(r.value) == PathAfter(c.path)
  {
    var n := c.focus;
    if n.less.Node? then
      var f := LessOf(n.level, n.key, n.value, n.greater);
      assert Attach(f, n.less) == n;
      Push(f, n.less, c.path);
      Some(RightmostCursor(n.less, [f] + c.path))
    else
      Ascend(n, c.path)
  }

  /**
   The climb `PredecessorAsWritten` evidently intends: up while the subtree
   is its parent's `less` child, then one step further, reaching the first
   ancestor of which the node is in the `greater` subtree. It is none exactly
   when the path places nothing before `t`.
   */
  function AscendLeft<K, V>(t: Tree<K, V>, path: seq<Frame<K, V>>): (r: Option<Cursor<K, V>>)
    ensures r.None? <==> PathBefore(path) == []
    ensures r.Some? ==> r.value.focus.Node?
    ensures r.Some? ==> Preceding(r.value) + [(r.value.focus.key, r.value.focus.value)] == PathBefore(path)
    ensures r.Some? ==> Plug(r.value.focus, r.value.path) == Plug(t, path)
    decreases |path|
  {
    if path == [] then None
    else
      var rest := path[1..];
      match path[0]
      case GreaterOf(l, le, k, v) =>
        var c := Cursor(Node(l, le, k, v, t), rest);
        assert Preceding(c) == PathBefore(rest) + Entries(le);
        Some(c)
      case LessOf(l, k, v, g) =>
        AscendLeft(Node(l, t, k, v, g), rest)
  }

  /**
   The corrected in-order predecessor: none exactly when the cursor's entry
   is the first one, and otherwise a cursor whose entry is the last of those
   before the cursor.
   */
  function Predecessor<K, V>(c: Cursor<K, V>): (r: Option<Cursor<K, V>>)
    requires c.focus.Node?
    ensures r.None? <==> Preceding(c) == []
    ensures r.Some? ==> r.value.focus.Node?
    ensures r.Some? ==> Preceding(r.value) + [(r.value.focus.key, r.value.focus.value)] == Preceding(c)
    ensures r.Some? ==> Plug(r.value.focus, r.value.path) == Plug(c.focus, c.path)
  {
    var n := c.focus;
    if n.less.Node? then
      var f := LessOf(n.level, n.key, n.value, n.greater);
      assert Attach(f, n.less) == n;
      Push(f, n.less, c.path);
      Some(RightmostCursor(n.less, [f] + c.path))
    else
      assert Preceding(c) == PathBefore(c.path);
      AscendLeft(n, c.path)
  }

  /**
   Successor and the corrected predecessor undo each other: stepping back
   from the successor returns to a cursor on the same entry with the same
   entries before it.
   */
  lemma SuccessorThenPredecessor<K, V>(c: Cursor<K, V>)
    requires c.focus.Node?
    requires Successor(c).Some?
    ensures Predecessor(Successor(c).value).Some?
    ensures var p := Predecessor(Successor(c).value).value;
      (p.focus.key, p.focus.value) == (c.focus.key, c.focus.value) && Preceding(p) == Preceding(c)
  {
    var s := Successor(c).value;
    CursorSplitsEntries(c);
    CursorSplitsEntries(s);
    assert Preceding(s) + Remaining(s) == Preceding(c) + Remaining(c);
    assert Remaining(c) == [Remaining(c)[0]] + Remaining(s);
    assert Preceding(s) == Preceding(c) + [Remaining(c)[0]] by {
      assert |Preceding(s)| == |Preceding(c)| + 1;
      assert Preceding(s) == (Preceding(c) + Remaining(c))[..|Preceding(s)|];
    }
    var p := Predecessor(s).value;
    var e := (p.focus.key, p.focus.value);
    var both := Preceding(c) + [Remaining(c)[0]];
    assert Preceding(p) + [e] == both;
    assert |Preceding(p)| == |Preceding(c)|;
    assert e == both[|both| - 1] == Remaining(c)[0];
    assert Preceding(p) == (Preceding(p) + [e])[..|Preceding(p)|] == both[..|Preceding(c)|];
  }
}
