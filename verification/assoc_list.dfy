/**
 Reference semantics for both maps: a map's contents seen as a sequence of
 (key, value) entries. The tree map keeps its entries sorted by the
 comparator; the linked-list map keeps them in insertion order and may hold
 the same key twice. Every operation of the two maps is stated against the
 functions below.
 */
module AssocList {
  import opened Optional
  import opened CompareFn

  /** The keys of `s`, in order. */
  ghost function Keys<K, V>(s: seq<(K, V)>): seq<K> {
    seq(|s|, i requires 0 <= i < |s| => s[i].0)
  }

  /** Keys strictly increase along `s`; in particular no key occurs twice. */
  ghost predicate Increasing<K, V>(cmp: (K, K) -> int, s: seq<(K, V)>) {
    forall i, j :: 0 <= i < j < |s| ==> cmp(s[i].0, s[j].0) < 0
  }

  /** The position of the first entry with key `k`. */
  ghost function FirstIndex<K, V>(s: seq<(K, V)>, k: K): (i: nat)
    requires k in Keys(s)
    ensures i < |s| && s[i].0 == k
    ensures forall j :: 0 <= j < i ==> s[j].0 != k
  {
    if s[0].0 == k then 0
    else
      assert Keys(s) == [s[0].0] + Keys(s[1..]);
      1 + FirstIndex(s[1..], k)
  }

  /** The value of the first entry with key `k`, if any. */
  ghost function Lookup<K, V>(s: seq<(K, V)>, k: K): Option<V> {
    if |s| == 0 then None
    else if s[0].0 == k then Some(s[0].1)
    else Lookup(s[1..], k)
  }

  /**
   Insertion into a sorted sequence: the entry goes in front of the first
   greater key, or replaces the entry of an equal key.
   */
  ghost function InsertSorted<K, V>(cmp: (K, K) -> int, s: seq<(K, V)>, k: K, v: V): seq<(K, V)> {
    if |s| == 0 then [(k, v)]
    else if cmp(k, s[0].0) < 0 then [(k, v)] + s
    else if cmp(k, s[0].0) == 0 then [(k, v)] + s[1..]
    else [s[0]] + InsertSorted(cmp, s[1..], k, v)
  }

  /** `s` without its first entry with key `k`; `s` itself when there is none. */
  ghost function RemoveFirst<K, V>(s: seq<(K, V)>, k: K): seq<(K, V)> {
    if |s| == 0 then []
    else if s[0].0 == k then s[1..]
    else [s[0]] + RemoveFirst(s[1..], k)
  }

  // ---------------------------------------------------------------------
  // Keys and ordering

  lemma KeysConcat<K, V>(a: seq<(K, V)>, b: seq<(K, V)>)
    ensures Keys(a + b) == Keys(a) + Keys(b)
  {
  }

  lemma KeysCons<K, V>(s: seq<(K, V)>)
    requires |s| > 0
    ensures Keys(s) == [s[0].0] + Keys(s[1..])
  {
  }

  /** The parts of a sorted sequence around one entry, and how they compare to it. */
  lemma IncreasingSplit<K, V>(cmp: (K, K) -> int, a: seq<(K, V)>, x: (K, V), b: seq<(K, V)>)
    requires Increasing(cmp, a + [x] + b)
    ensures Increasing(cmp, a) && Increasing(cmp, b)
    ensures forall i :: 0 <= i < |a| ==> cmp(a[i].0, x.0) < 0
    ensures forall i :: 0 <= i < |b| ==> cmp(x.0, b[i].0) < 0
  {
    var s := a + [x] + b;
    forall i, j | 0 <= i < j < |a|
      ensures cmp(a[i].0, a[j].0) < 0
    {
      assert a[i] == s[i] && a[j] == s[j];
    }
    forall i, j | 0 <= i < j < |b|
      ensures cmp(b[i].0, b[j].0) < 0
    {
      assert b[i] == s[|a| + 1 + i] && b[j] == s[|a| + 1 + j];
    }
    forall i | 0 <= i < |b|
      ensures cmp(x.0, b[i].0) < 0
    {
      assert x == s[|a|] && b[i] == s[|a| + 1 + i];
    }
    forall i | 0 <= i < |a|
      ensures cmp(a[i].0, x.0) < 0
    {
      assert a[i] == s[i] && x == s[|a|];
    }
  }

  /** A key below the first key of a sorted sequence is below all of them. */
  lemma IncreasingBelowHead<K(!new), V>(cmp: (K, K) -> int, s: seq<(K, V)>, k: K)
    requires IsCompareFn(cmp) && Increasing(cmp, s)
    requires |s| > 0 && cmp(k, s[0].0) < 0
    ensures k !in Keys(s)
  {
    forall i | 0 <= i < |s|
      ensures s[i].0 != k
    {
      if i > 0 {
        assert cmp(s[0].0, s[i].0) < 0;
      }
    }
  }

  lemma IncreasingTail<K, V>(cmp: (K, K) -> int, s: seq<(K, V)>)
    requires Increasing(cmp, s) && |s| > 0
    ensures Increasing(cmp, s[1..])
    ensures forall i :: 0 < i < |s| ==> cmp(s[0].0, s[i].0) < 0
  {
  }

  // ---------------------------------------------------------------------
  // Lookup

  /** `Lookup` finds exactly the keys present, with the first entry's value. */
  lemma {:induction false} LookupFirst<K, V>(s: seq<(K, V)>, k: K)
    ensures Lookup(s, k).None? <==> k !in Keys(s)
    ensures k in Keys(s) ==> Lookup(s, k) == Some(s[FirstIndex(s, k)].1)
  {
    if |s| > 0 {
      KeysCons(s);
      LookupFirst(s[1..], k);
    }
  }

  lemma {:induction false} LookupConcat<K, V>(a: seq<(K, V)>, b: seq<(K, V)>, k: K)
    ensures Lookup(a + b, k) == if k in Keys(a) then Lookup(a, k) else Lookup(b, k)
  {
    if |a| > 0 {
      KeysCons(a);
      assert (a + b)[0] == a[0];
      if a[0].0 != k {
        assert (a + b)[1..] == a[1..] + b;
        LookupConcat(a[1..], b, k);
      }
    } else {
      assert a + b == b;
    }
  }

  /** In a sorted sequence the entry `(k, v)` is the one `Lookup` finds. */
  lemma LookupIncreasing<K(!new), V>(cmp: (K, K) -> int, s: seq<(K, V)>, k: K, v: V)
    requires IsCompareFn(cmp) && Increasing(cmp, s)
    ensures Lookup(s, k) == Some(v) <==> (k, v) in s
  {
    LookupFirst(s, k);
    if (k, v) in s {
      var i :| 0 <= i < |s| && s[i] == (k, v);
      var f := FirstIndex(s, k);
      assert f == i by {
        assert f <= i;
        assert !(cmp(s[f].0, s[i].0) < 0);
      }
    }
  }

  // ---------------------------------------------------------------------
  // InsertSorted

  /** Inserting a key below the head of `c` does not touch `c`. */
  lemma {:induction false} InsertSortedBefore<K, V>(cmp: (K, K) -> int, a: seq<(K, V)>, c: seq<(K, V)>, k: K, v: V)
    requires |c| > 0 && cmp(k, c[0].0) < 0
    ensures InsertSorted(cmp, a + c, k, v) == InsertSorted(cmp, a, k, v) + c
  {
    if |a| > 0 {
      assert (a + c)[1..] == a[1..] + c;
      InsertSortedBefore(cmp, a[1..], c, k, v);
    }
  }

  /** Inserting a key above every key of `a` does not touch `a`. */
  lemma {:induction false} InsertSortedAfter<K, V>(cmp: (K, K) -> int, a: seq<(K, V)>, c: seq<(K, V)>, k: K, v: V)
    requires forall i :: 0 <= i < |a| ==> cmp(k, a[i].0) > 0
    ensures InsertSorted(cmp, a + c, k, v) == a + InsertSorted(cmp, c, k, v)
  {
    if |a| > 0 {
      assert (a + c)[0] == a[0];
      assert (a + c)[1..] == a[1..] + c;
      assert forall i :: 0 <= i < |a[1..]| ==> a[1..][i] == a[i + 1];
      InsertSortedAfter(cmp, a[1..], c, k, v);
    } else {
      assert a + c == c;
    }
  }

  /** After insertion `k` maps to `v` and every other key keeps its lookup. */
  lemma {:induction false} InsertSortedLookup<K(!new), V>(cmp: (K, K) -> int, s: seq<(K, V)>, k: K, v: V, k': K)
    requires IsCompareFn(cmp)
    ensures Lookup(InsertSorted(cmp, s, k, v), k') == if k' == k then Some(v) else Lookup(s, k')
  {
    if |s| > 0 && cmp(k, s[0].0) > 0 {
      InsertSortedLookup(cmp, s[1..], k, v, k');
    }
  }

  /** Insertion keeps a sequence sorted, and grows it exactly when the key is new. */
  lemma {:induction false} InsertSortedIncreasing<K(!new), V>(cmp: (K, K) -> int, s: seq<(K, V)>, k: K, v: V)
    requires IsCompareFn(cmp) && Increasing(cmp, s)
    ensures Increasing(cmp, InsertSorted(cmp, s, k, v))
  {
    if |s| == 0 {
    } else if cmp(k, s[0].0) < 0 {
      IncreasingCons(cmp, (k, v), s);
    } else if cmp(k, s[0].0) == 0 {
      IncreasingTail(cmp, s);
      IncreasingCons(cmp, (k, v), s[1..]);
    } else {
      var t := InsertSorted(cmp, s[1..], k, v);
      IncreasingTail(cmp, s);
      InsertSortedIncreasing(cmp, s[1..], k, v);
      InsertSortedBound(cmp, s[1..], k, v, s[0].0);
      IncreasingCons(cmp, s[0], t);
    }
  }

  /** An entry below the head of a sorted sequence can be put in front of it. */
  lemma IncreasingCons<K(!new), V>(cmp: (K, K) -> int, x: (K, V), s: seq<(K, V)>)
    requires IsCompareFn(cmp) && Increasing(cmp, s)
    requires |s| > 0 ==> cmp(x.0, s[0].0) < 0
    ensures Increasing(cmp, [x] + s)
  {
    var r := [x] + s;
    forall i, j | 0 <= i < j < |r|
      ensures cmp(r[i].0, r[j].0) < 0
    {
      if i > 0 {
        assert r[i] == s[i - 1] && r[j] == s[j - 1];
      } else if j > 1 {
        assert cmp(s[0].0, s[j - 1].0) < 0;
      }
    }
  }

  /** A key below every old key and below the inserted key is below every key after insertion. */
  lemma InsertSortedBound<K(!new), V>(cmp: (K, K) -> int, s: seq<(K, V)>, k: K, v: V, x: K)
    requires IsCompareFn(cmp)
    requires forall i :: 0 <= i < |s| ==> cmp(x, s[i].0) < 0
    requires cmp(x, k) < 0
    ensures forall i :: 0 <= i < |InsertSorted(cmp, s, k, v)| ==> cmp(x, InsertSorted(cmp, s, k, v)[i].0) < 0
  {
    var t := InsertSorted(cmp, s, k, v);
    InsertSortedKeys(cmp, s, k, v);
    forall i | 0 <= i < |t|
      ensures cmp(x, t[i].0) < 0
    {
      assert Keys(t)[i] == t[i].0;
      assert t[i].0 in Keys(t);
      if t[i].0 != k {
        assert t[i].0 in Keys(s);
        var j :| 0 <= j < |s| && Keys(s)[j] == t[i].0;
      }
    }
  }

  /** Insertion grows a sorted sequence by one exactly when the key is new. */
  lemma {:induction false} InsertSortedLength<K(!new), V>(cmp: (K, K) -> int, s: seq<(K, V)>, k: K, v: V)
    requires IsCompareFn(cmp) && Increasing(cmp, s)
    ensures |InsertSorted(cmp, s, k, v)| == if k in Keys(s) then |s| else |s| + 1
  {
    if |s| == 0 {
    } else if cmp(k, s[0].0) < 0 {
      IncreasingBelowHead(cmp, s, k);
    } else if cmp(k, s[0].0) == 0 {
      assert Keys(s)[0] == k;
    } else {
      KeysCons(s);
      IncreasingTail(cmp, s);
      InsertSortedLength(cmp, s[1..], k, v);
    }
  }

  /** Every key after insertion is the inserted key or an old key. */
  lemma {:induction false} InsertSortedKeys<K(!new), V>(cmp: (K, K) -> int, s: seq<(K, V)>, k: K, v: V)
    requires IsCompareFn(cmp)
    ensures forall x :: x in Keys(InsertSorted(cmp, s, k, v)) <==> x == k || x in Keys(s)
  {
    var r := InsertSorted(cmp, s, k, v);
    if |s| == 0 {
      assert Keys(r) == [k];
    } else {
      KeysCons(s);
      if cmp(k, s[0].0) > 0 {
        InsertSortedKeys(cmp, s[1..], k, v);
        KeysConcat([s[0]], InsertSorted(cmp, s[1..], k, v));
        assert Keys([s[0]]) == [s[0].0];
      } else if cmp(k, s[0].0) == 0 {
        KeysConcat([(k, v)], s[1..]);
        assert Keys([(k, v)]) == [k];
      } else {
        KeysConcat([(k, v)], s);
        assert Keys([(k, v)]) == [k];
      }
    }
  }

  // ---------------------------------------------------------------------
  // RemoveFirst

  /** Removal cuts out exactly the first entry with the key, if there is one. */
  lemma {:induction false} RemoveFirstSplice<K, V>(s: seq<(K, V)>, k: K)
    ensures k !in Keys(s) ==> RemoveFirst(s, k) == s
    ensures k in Keys(s) ==> RemoveFirst(s, k) == s[..FirstIndex(s, k)] + s[FirstIndex(s, k) + 1..]
  {
    if |s| == 0 {
    } else if s[0].0 == k {
      assert Keys(s)[0] == k;
    } else {
      var t := s[1..];
      assert Keys(s) == [s[0].0] + Keys(t) by { KeysCons(s); }
      RemoveFirstSplice(t, k);
      if k in Keys(s) {
        var f := FirstIndex(t, k);
        assert FirstIndex(s, k) == f + 1;
        assert s[..f + 1] == [s[0]] + t[..f];
        assert s[f + 2..] == t[f + 1..];
      } else {
        assert s == [s[0]] + t;
      }
    }
  }

  lemma {:induction false} RemoveFirstConcat<K, V>(a: seq<(K, V)>, b: seq<(K, V)>, k: K)
    ensures RemoveFirst(a + b, k) == if k in Keys(a) then RemoveFirst(a, k) + b else a + RemoveFirst(b, k)
  {
    if |a| > 0 {
      KeysCons(a);
      assert (a + b)[0] == a[0];
      if a[0].0 != k {
        assert (a + b)[1..] == a[1..] + b;
        RemoveFirstConcat(a[1..], b, k);
      }
    } else {
      assert a + b == b;
    }
  }

  /** Removal shrinks the sequence by one exactly when the key is present. */
  lemma RemoveFirstLength<K, V>(s: seq<(K, V)>, k: K)
    ensures |RemoveFirst(s, k)| == if k in Keys(s) then |s| - 1 else |s|
  {
    RemoveFirstSplice(s, k);
  }

  /** Removal keeps a sorted sequence sorted. */
  lemma RemoveFirstIncreasing<K, V>(cmp: (K, K) -> int, s: seq<(K, V)>, k: K)
    requires Increasing(cmp, s)
    ensures Increasing(cmp, RemoveFirst(s, k))
  {
    RemoveFirstSplice(s, k);
    if k in Keys(s) {
      var f := FirstIndex(s, k);
      var r := RemoveFirst(s, k);
      forall i, j | 0 <= i < j < |r|
        ensures cmp(r[i].0, r[j].0) < 0
      {
        var i' := if i < f then i else i + 1;
        var j' := if j < f then j else j + 1;
        assert r[i] == s[i'] && r[j] == s[j'];
      }
    }
  }

  /**
   After removal every other key keeps its lookup; in a sequence without
   duplicate keys the removed key is gone.
   */
  lemma {:induction false} RemoveFirstLookup<K, V>(s: seq<(K, V)>, k: K, k': K)
    ensures k' != k ==> Lookup(RemoveFirst(s, k), k') == Lookup(s, k')
  {
    if |s| > 0 && s[0].0 != k {
      RemoveFirstLookup(s[1..], k, k');
    }
  }

  lemma RemoveFirstLookupSorted<K(!new), V>(cmp: (K, K) -> int, s: seq<(K, V)>, k: K)
    requires IsCompareFn(cmp) && Increasing(cmp, s)
    ensures Lookup(RemoveFirst(s, k), k) == None
  {
    RemoveFirstSplice(s, k);
    var r := RemoveFirst(s, k);
    LookupFirst(r, k);
    if k in Keys(s) {
      var f := FirstIndex(s, k);
      forall i | 0 <= i < |r|
        ensures r[i].0 != k
      {
        if i < f {
          assert r[i] == s[i];
        } else {
          assert r[i] == s[i + 1];
          assert cmp(s[f].0, s[i + 1].0) < 0;
        }
      }
    }
  }
}
