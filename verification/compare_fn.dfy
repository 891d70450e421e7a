/**
 The comparator contract shared by both maps (dsaext.go:34-40): a function of
 two keys returning a negative number, zero or a positive number when the
 first key is below, equal to or above the second.
 */
module CompareFn {

  /**
   A comparator the maps can rely on: zero exactly for equal keys, the sign
   flips when the arguments are swapped, and "below" is transitive. Keys are
   represented up to the comparator's equality, so zero means the same key.
   */
  ghost predicate IsCompareFn<K(!new)>(cmp: (K, K) -> int) {
    && (forall a, b :: cmp(a, b) == 0 <==> a == b)
    && (forall a, b :: cmp(a, b) < 0 <==> cmp(b, a) > 0)
    && (forall a, b, c :: cmp(a, b) < 0 && cmp(b, c) < 0 ==> cmp(a, c) < 0)
  }
}
