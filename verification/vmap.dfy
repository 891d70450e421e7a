/**
 The linked-list map (src/dsaext/vmap.go): a doubly linked list of
 (key, value) nodes kept in the order the entries were added at either end.
 Keys are not required to be distinct; lookup and removal act on the first
 node, from the head, whose key compares equal.

 Nodes live in an arena: `heap` is the sequence of every node ever
 allocated, and a pointer is an index into it. `Linked(m, chain)` says that
 `chain` lists, from head to tail, the indices of the nodes reachable from
 the head, with the `prev` and `next` links, the tail and the size counter
 all consistent with it; `View(m, chain)` is the map's contents.
 */
module VMaps {
  import opened Optional
  import opened CompareFn
  import opened AssocList

  datatype VNode<K, V> = VNode(key: K, value: V, prev: Option<nat>, next: Option<nat>)

  datatype VMap<!K, V> = VMap(
    heap: seq<VNode<K, V>>,
    head: Option<nat>,
    tail: Option<nat>,
    size: int,
    cmpFn: (K, K) -> int)

  /** The pointer at position `i` of `chain`, or none past either end. */
  function At(chain: seq<nat>, i: int): Option<nat> {
    if 0 <= i < |chain| then Some(chain[i]) else None
  }

  /** The node at position `i` of `chain` links back to position `i - 1` and on to `i + 1`. */
  ghost predicate LinkedAt<K, V>(m: VMap<K, V>, chain: seq<nat>, i: int)
    requires 0 <= i < |chain| && chain[i] < |m.heap|
  {
    m.heap[chain[i]].next == At(chain, i + 1) && m.heap[chain[i]].prev == At(chain, i - 1)
  }

  ghost predicate Linked<K, V>(m: VMap<K, V>, chain: seq<nat>) {
    && (forall i :: 0 <= i < |chain| ==> chain[i] < |m.heap|)
    && (forall i, j :: 0 <= i < j < |chain| ==> chain[i] != chain[j])
    && m.head == At(chain, 0)
    && m.tail == At(chain, |chain| - 1)
    && (forall i :: 0 <= i < |chain| ==> LinkedAt(m, chain, i))
    && m.size == |chain|
  }

  /** The entries of the list from head to tail. */
  ghost function View<K, V>(m: VMap<K, V>, chain: seq<nat>): seq<(K, V)>
    requires forall i :: 0 <= i < |chain| ==> chain[i] < |m.heap|
  {
    seq(|chain|, i requires 0 <= i < |chain| => (m.heap[chain[i]].key, m.heap[chain[i]].value))
  }

  /** An empty map (vmap.go:67-69). */
  function NewVMap<K, V>(cmp: (K, K) -> int): (r: VMap<K, V>)
    ensures Linked(r, []) && View(r, []) == []
    ensures r.cmpFn == cmp
  {
    VMap([], None, None, 0, cmp)
  }

  /**
   Drop every entry (vmap.go:75-79). The nodes stay allocated in the arena
   but none is reachable any more.
   */
  function Clear<K, V>(m: VMap<K, V>): (r: VMap<K, V>)
    ensures Linked(r, []) && View(r, []) == []
    ensures r.heap == m.heap && r.cmpFn == m.cmpFn
  {
    m.(head := None, tail := None, size := 0)
  }

  /** The size counter (vmap.go:81-83): the number of entries of a linked list. */
  function GetSize<K, V>(m: VMap<K, V>): (r: int)
    ensures forall chain :: Linked(m, chain) ==> r == |chain|
  {
    m.size
  }

  /**
   Add an entry in front of the head (vmap.go:85-95): a fresh node whose
   `next` is the old head becomes the head, the old head's `prev` points to
   it, and it is also the tail of a list that was empty.
   */
  function Prepend<K, V>(m: VMap<K, V>, key: K, value: V): (r: VMap<K, V>)
    requires m.head.Some? ==> m.head.value < |m.heap|
    ensures |r.heap| == |m.heap| + 1 && r.head == Some(|m.heap|)
    ensures r.heap[|m.heap|] == VNode(key, value, None, m.head)
    ensures r.size == m.size + 1 && r.cmpFn == m.cmpFn
  {
    var n := |m.heap|;
    var heap := m.heap + [VNode(key, value, None, m.head)];
    var heap' := if m.head.Some? then heap[m.head.value := heap[m.head.value].(prev := Some(n))] else heap;
    VMap(heap', Some(n), if m.tail.None? then Some(n) else m.tail, m.size + 1, m.cmpFn)
  }

  /**
   Add an entry after the tail (vmap.go:97-107): a fresh node whose `prev`
   is the old tail becomes the tail, the old tail's `next` points to it, and
   it is also the head of a list that was empty.
   */
  function Append<K, V>(m: VMap<K, V>, key: K, value: V): (r: VMap<K, V>)
    requires m.tail.Some? ==> m.tail.value < |m.heap|
    ensures |r.heap| == |m.heap| + 1 && r.tail == Some(|m.heap|)
    ensures r.heap[|m.heap|] == VNode(key, value, m.tail, None)
    ensures r.size == m.size + 1 && r.cmpFn == m.cmpFn
  {
    var n := |m.heap|;
    var heap := m.heap + [VNode(key, value, m.tail, None)];
    var heap' := if m.tail.Some? then heap[m.tail.value := heap[m.tail.value].(next := Some(n))] else heap;
    VMap(heap', if m.head.None? then Some(n) else m.head, Some(n), m.size + 1, m.cmpFn)
  }

  /** Prepending puts the entry in front of the list's entries. */
  lemma PrependLinked<K, V>(m: VMap<K, V>, chain: seq<nat>, key: K, value: V)
    requires Linked(m, chain)
    ensures Linked(Prepend(m, key, value), [|m.heap|] + chain)
    ensures View(Prepend(m, key, value), [|m.heap|] + chain) == [(key, value)] + View(m, chain)
  {
    var r := Prepend(m, key, value);
    var n := |m.heap|;
    var c := [n] + chain;
    forall i | 0 <= i < |c|
      ensures LinkedAt(r, c, i)
    {
      if i > 0 {
        assert c[i] == chain[i - 1];
        assert LinkedAt(m, chain, i - 1);
        assert c[i] != n;
      } else if |chain| > 0 {
        assert c[1] == chain[0];
      }
    }
  }

  /** Appending puts the entry after the list's entries. */
  lemma AppendLinked<K, V>(m: VMap<K, V>, chain: seq<nat>, key: K, value: V)
    requires Linked(m, chain)
    ensures Linked(Append(m, key, value), chain + [|m.heap|])
    ensures View(Append(m, key, value), chain + [|m.heap|]) == View(m, chain) + [(key, value)]
  {
    var r := Append(m, key, value);
    var n := |m.heap|;
    var c := chain + [n];
    forall i | 0 <= i < |c|
      ensures LinkedAt(r, c, i)
    {
      if i < |chain| {
        assert c[i] == chain[i];
        assert LinkedAt(m, chain, i);
        assert c[i] != n;
      } else if |chain| > 0 {
        assert c[i - 1] == chain[i - 1];
      }
    }
  }

  /**
   The search from the head (vmap.go:159-168): the position in `chain` of
   the first node whose key compares equal to `key`, or none when no node's
   key does.
   */
  method FindNode<K, V>(m: VMap<K, V>, key: K, ghost chain: seq<nat>) returns (r: Option<nat>, ghost pos: nat)
    requires Linked(m, chain)
    ensures r.None? <==> forall i :: 0 <= i < |chain| ==> m.cmpFn(key, m.heap[chain[i]].key) != 0
    ensures r.Some? ==> pos < |chain| && r.value == chain[pos]
    ensures r.Some? ==> m.cmpFn(key, m.heap[chain[pos]].key) == 0
    ensures r.Some? ==> forall i :: 0 <= i < pos ==> m.cmpFn(key, m.heap[chain[i]].key) != 0
  {
    var node := m.head;
    pos := 0;
    while node.Some?
      invariant pos <= |chain| && node == At(chain, pos)
      invariant forall i :: 0 <= i < pos ==> m.cmpFn(key, m.heap[chain[i]].key) != 0
      decreases |chain| - pos
    {
      if m.cmpFn(key, m.heap[node.value].key) == 0 {
        break;
      }
      assert LinkedAt(m, chain, pos);
      node := m.heap[node.value].next;
      pos := pos + 1;
    }
    r := node;
  }

  /**
   The value of the first entry with the key (vmap.go:109-116); under a
   consistent comparator, exactly a lookup of the list's entries.
   */
  method Get<K(!new), V>(m: VMap<K, V>, key: K, ghost chain: seq<nat>) returns (r: Option<V>)
    requires Linked(m, chain)
    ensures r.Some? ==> exists i :: 0 <= i < |chain| && m.heap[chain[i]].value == r.value
    ensures IsCompareFn(m.cmpFn) ==> r == Lookup(View(m, chain), key)
  {
    var node, pos := FindNode(m, key, chain);
    ghost var s := View(m, chain);
    if IsCompareFn(m.cmpFn) {
      FirstMatchIsLookup(s, key, if node.Some? then pos else |chain|);
    }
    if node.Some? {
      r := Some(m.heap[node.value].value);
    } else {
      r := None;
    }
  }

  /** When the entries before `p` lack the key and the entry at `p` has it, lookup finds that entry. */
  lemma {:induction false} FirstMatchIsLookup<K, V>(s: seq<(K, V)>, k: K, p: nat)
    requires p <= |s|
    requires forall i :: 0 <= i < p ==> s[i].0 != k
    requires p < |s| ==> s[p].0 == k
    ensures Lookup(s, k) == if p < |s| then Some(s[p].1) else None
  {
    if |s| > 0 && p > 0 {
      FirstMatchIsLookup(s[1..], k, p - 1);
    }
  }

  /**
   The entry at the head (vmap.go:118-128), or none for an empty list.
   */
  function GetFirst<K, V>(m: VMap<K, V>, ghost chain: seq<nat>): (r: Option<(K, V)>)
    requires Linked(m, chain)
    ensures r.None? <==> View(m, chain) == []
    ensures r.Some? ==> r.value == View(m, chain)[0]
  {
    if m.head.None? then None
    else Some((m.heap[m.head.value].key, m.heap[m.head.value].value))
  }

  /**
   The entry at the tail (vmap.go:130-140), or none for an empty list.
   */
  function GetLast<K, V>(m: VMap<K, V>, ghost chain: seq<nat>): (r: Option<(K, V)>)
    requires Linked(m, chain)
    ensures r.None? <==> View(m, chain) == []
    ensures r.Some? ==> r.value == View(m, chain)[|chain| - 1]
  {
    if m.tail.None? then None
    else Some((m.heap[m.tail.value].key, m.heap[m.tail.value].value))
  }

  /**
   Take the node at position `pos` of `chain` out of the list
   (vmap.go:144-155): its predecessor, or the head, now leads to its
   successor, and its successor, or the tail, leads back to its predecessor.
   No entry changes and the counter drops by one.
   */
  function Unlink<K, V>(m: VMap<K, V>, n: nat, ghost chain: seq<nat>, ghost pos: nat): (r: VMap<K, V>)
    requires Linked(m, chain) && pos < |chain| && n == chain[pos]
    ensures |r.heap| == |m.heap| && r.size == m.size - 1 && r.cmpFn == m.cmpFn
    ensures forall j :: 0 <= j < |m.heap| ==> r.heap[j].key == m.heap[j].key && r.heap[j].value == m.heap[j].value
  {
    var node := m.heap[n];
    var heap1 :=
      if m.head == Some(n) then m.heap
      else
        assert pos > 0 && LinkedAt(m, chain, pos);
        var p := node.prev.value;
        m.heap[p := m.heap[p].(next := node.next)];
    var heap2 :=
      if m.tail == Some(n) then heap1
      else
        assert pos < |chain| - 1 && LinkedAt(m, chain, pos);
        var q := node.next.value;
        heap1[q := heap1[q].(prev := node.prev)];
    VMap(heap2, if m.head == Some(n) then node.next else m.head,
         if m.tail == Some(n) then node.prev else m.tail, m.size - 1, m.cmpFn)
  }

  /** The chain without its entry at `pos`. */
  function Without(chain: seq<nat>, pos: nat): (r: seq<nat>)
    requires pos < |chain|
    ensures |r| == |chain| - 1
    ensures forall i :: 0 <= i < |r| ==> r[i] == chain[if i < pos then i else i + 1]
  {
    chain[..pos] + chain[pos + 1..]
  }

  /**
   Unlinking the node at `pos` leaves a list whose chain is the old one
   without that node, and whose entries are the old ones without that entry.
   */
  lemma UnlinkLinked<K, V>(m: VMap<K, V>, chain: seq<nat>, pos: nat)
    requires Linked(m, chain) && pos < |chain|
    ensures Linked(Unlink(m, chain[pos], chain, pos), Without(chain, pos))
    ensures View(Unlink(m, chain[pos], chain, pos), Without(chain, pos)) == View(m, chain)[..pos] + View(m, chain)[pos + 1..]
  {
    var r := Unlink(m, chain[pos], chain, pos);
    var n := chain[pos];
    assert m.head == Some(n) <==> pos == 0;
    assert m.tail == Some(n) <==> pos == |chain| - 1;
    assert LinkedAt(m, chain, pos);
    var node := m.heap[n];
    forall j | 0 <= j < |m.heap| && (pos == 0 || j != chain[pos - 1]) && (pos + 1 == |chain| || j != chain[pos + 1])
      ensures r.heap[j] == m.heap[j]
    {
    }
    if pos > 0 {
      assert pos + 1 == |chain| || chain[pos - 1] != chain[pos + 1];
      assert r.heap[chain[pos - 1]] == m.heap[chain[pos - 1]].(next := node.next);
    }
    if pos + 1 < |chain| {
      assert r.heap[chain[pos + 1]] == m.heap[chain[pos + 1]].(prev := node.prev);
    }
    RelinkedAround(m, chain, pos, r);
    var c := Without(chain, pos);
    var v := View(m, chain);
    assert View(r, c) == v[..pos] + v[pos + 1..];
  }

  /**
   The relinking step on its own: a list whose nodes keep their entries and
   links except that the node before `pos` now leads past it and the node
   after `pos` leads back past it is linked along the chain without `pos`.
   */
  lemma RelinkedAround<K, V>(m: VMap<K, V>, chain: seq<nat>, pos: nat, r: VMap<K, V>)
    requires Linked(m, chain) && pos < |chain|
    requires |r.heap| == |m.heap| && r.size == m.size - 1
    requires r.head == (if pos == 0 then At(chain, 1) else m.head)
    requires r.tail == (if pos == |chain| - 1 then At(chain, pos - 1) else m.tail)
    requires forall j :: 0 <= j < |m.heap| && (pos == 0 || j != chain[pos - 1]) && (pos + 1 == |chain| || j != chain[pos + 1]) ==>
                r.heap[j] == m.heap[j]
    requires pos > 0 ==> r.heap[chain[pos - 1]] == m.heap[chain[pos - 1]].(next := At(chain, pos + 1))
    requires pos + 1 < |chain| ==> r.heap[chain[pos + 1]] == m.heap[chain[pos + 1]].(prev := At(chain, pos - 1))
    ensures Linked(r, Without(chain, pos))
  {
    var c := Without(chain, pos);
    forall i | 0 <= i < |c|
      ensures LinkedAt(r, c, i)
    {
      var k := if i < pos then i else i + 1;
      assert c[i] == chain[k];
      assert LinkedAt(m, chain, k);
      if i + 1 < |c| {
        assert c[i + 1] == chain[if i + 1 < pos then i + 1 else i + 2];
      }
      if i > 0 {
        assert c[i - 1] == chain[if i - 1 < pos then i - 1 else i];
      }
    }
    forall i, j | 0 <= i < j < |c|
      ensures c[i] != c[j]
    {
      assert c[i] == chain[if i < pos then i else i + 1];
      assert c[j] == chain[if j < pos then j else j + 1];
    }
  }

  /**
   Remove the first entry whose key compares equal (vmap.go:142-157); the
   list is left as it is when there is none. Under a consistent comparator
   the entries become exactly `RemoveFirst` of the old ones.
   */
  method Remove<K(!new), V>(m: VMap<K, V>, key: K, ghost chain: seq<nat>) returns (r: VMap<K, V>, ghost chain': seq<nat>)
    requires Linked(m, chain)
    ensures Linked(r, chain') && r.cmpFn == m.cmpFn
    ensures |chain'| == |chain| || |chain'| == |chain| - 1
    ensures IsCompareFn(m.cmpFn) ==> View(r, chain') == RemoveFirst(View(m, chain), key)
  {
    var node, pos := FindNode(m, key, chain);
    ghost var s := View(m, chain);
    if node.None? {
      r, chain' := m, chain;
      if IsCompareFn(m.cmpFn) {
        assert forall i :: 0 <= i < |s| ==> s[i].0 != key;
        RemoveFirstAbsent(s, key);
      }
    } else {
      r := Unlink(m, node.value, chain, pos);
      chain' := Without(chain, pos);
      UnlinkLinked(m, chain, pos);
      if IsCompareFn(m.cmpFn) {
        RemoveFirstAt(s, key, pos);
      }
    }
  }

  lemma {:induction false} RemoveFirstAbsent<K, V>(s: seq<(K, V)>, k: K)
    requires forall i :: 0 <= i < |s| ==> s[i].0 != k
    ensures RemoveFirst(s, k) == s
  {
    if |s| > 0 {
      RemoveFirstAbsent(s[1..], k);
      assert s == [s[0]] + s[1..];
    }
  }

  lemma {:induction false} RemoveFirstAt<K, V>(s: seq<(K, V)>, k: K, p: nat)
    requires p < |s| && s[p].0 == k
    requires forall i :: 0 <= i < p ==> s[i].0 != k
    ensures RemoveFirst(s, k) == s[..p] + s[p + 1..]
  {
    if p > 0 {
      RemoveFirstAt(s[1..], k, p - 1);
      assert s[..p] == [s[0]] + s[1..][..p - 1];
      assert s[p + 1..] == s[1..][p..];
    }
  }

  // ---------------------------------------------------------------------
  // Iteration

  /** The iterator: the node whose entry `Next` yields next, if any (vmap.go:50-52). */
  datatype VMapIterator = VMapIterator(next: Option<nat>)

  /** A fresh iterator at the head (vmap.go:71-73). */
  function Iterator<K, V>(m: VMap<K, V>): (r: VMapIterator)
    ensures forall chain :: Linked(m, chain) ==> r.next == At(chain, 0)
  {
    VMapIterator(m.head)
  }

  /**
   One step of the iterator (vmap.go:54-65): on the node at position `i` of
   the chain it yields that node's entry and moves to position `i + 1`;
   past the tail it yields nothing.
   */
  function Next<K, V>(m: VMap<K, V>, it: VMapIterator, ghost chain: seq<nat>, ghost i: nat): (r: (Option<(K, V)>, VMapIterator))
    requires Linked(m, chain) && i <= |chain| && it.next == At(chain, i)
    ensures r.0.None? <==> i == |chain|
    ensures r.0.Some? ==> r.0.value == View(m, chain)[i] && r.1.next == At(chain, i + 1)
  {
    match it.next
    case None => (None, it)
    case Some(n) =>
      assert LinkedAt(m, chain, i);
      (Some((m.heap[n].key, m.heap[n].value)), VMapIterator(m.heap[n].next))
  }

  /** Draining a fresh iterator yields the entries from head to tail. */
  method Drain<K, V>(m: VMap<K, V>, ghost chain: seq<nat>) returns (out: seq<(K, V)>)
    requires Linked(m, chain)
    ensures out == View(m, chain)
  {
    var it := Iterator(m);
    ghost var i := 0;
    out := [];
    while true
      invariant i <= |chain| && it.next == At(chain, i)
      invariant out == View(m, chain)[..i]
      decreases |chain| - i
    {
      var (entry, rest) := Next(m, it, chain, i);
      if entry.None? {
        assert View(m, chain)[..i] == View(m, chain);
        return;
      }
      out := out + [entry.value];
      it := rest;
      i := i + 1;
    }
  }

  // ---------------------------------------------------------------------
  // Properties of the public operations

  /** After a prepend the key finds the new value and every other key what it found. */
  lemma LookupAfterPrepend<K, V>(m: VMap<K, V>, chain: seq<nat>, key: K, value: V, other: K)
    requires Linked(m, chain)
    ensures Lookup(View(Prepend(m, key, value), [|m.heap|] + chain), other)
      == if other == key then Some(value) else Lookup(View(m, chain), other)
  {
    PrependLinked(m, chain, key, value);
  }

  /**
   After an append a key already present still finds its old value: the
   appended entry is shadowed. Only a new key finds the appended value.
   */
  lemma LookupAfterAppend<K, V>(m: VMap<K, V>, chain: seq<nat>, key: K, value: V, other: K)
    requires Linked(m, chain)
    ensures Lookup(View(Append(m, key, value), chain + [|m.heap|]), other)
      == if other in Keys(View(m, chain)) then Lookup(View(m, chain), other)
         else if other == key then Some(value) else None
  {
    AppendLinked(m, chain, key, value);
    LookupConcat(View(m, chain), [(key, value)], other);
  }
}
