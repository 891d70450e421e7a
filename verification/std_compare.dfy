/**
 The standard comparators (src/dsaext/stdcompare.go): three-way comparisons
 for Go's integer types and for strings, each returning -1, 0 or 1. Each
 meets the comparator contract the maps rely on (`CompareFn.IsCompareFn`).

 Go's fixed-width integer types are subset types of `int` with the ranges
 of their Go counterparts; Go's `int` is modelled as an unbounded `int`,
 which is sound here because a comparison never overflows. A Go string is
 a sequence of bytes and its `<` is bytewise lexicographic order.
 */
module StdCompare {
  import opened CompareFn

  type UInt8 = x: int | 0 <= x < 0x100
  type UInt16 = x: int | 0 <= x < 0x1_0000
  type UInt32 = x: int | 0 <= x < 0x1_0000_0000
  type UInt64 = x: int | 0 <= x < 0x1_0000_0000_0000_0000
  type Int8 = x: int | -0x80 <= x < 0x80
  type Int16 = x: int | -0x8000 <= x < 0x8000
  type Int32 = x: int | -0x8000_0000 <= x < 0x8000_0000
  type Int64 = x: int | -0x8000_0000_0000_0000 <= x < 0x8000_0000_0000_0000

  /** The three-way comparison of two integers (stdcompare.go:35-45). */
  function CompareInt(a: int, b: int): (r: int)
    ensures r == -1 || r == 0 || r == 1
    ensures r < 0 <==> a < b
    ensures r > 0 <==> b < a
  {
    if a < b then -1
    else if a > b then 1
    else 0
  }

  function CompareUInt8(a: UInt8, b: UInt8): (r: int)
    ensures r == -1 || r == 0 || r == 1
    ensures r < 0 <==> a < b
    ensures r > 0 <==> b < a
  {
    CompareInt(a, b)
  }

  function CompareUInt16(a: UInt16, b: UInt16): (r: int)
    ensures r == -1 || r == 0 || r == 1
    ensures r < 0 <==> a < b
    ensures r > 0 <==> b < a
  {
    CompareInt(a, b)
  }

  function CompareUInt32(a: UInt32, b: UInt32): (r: int)
    ensures r == -1 || r == 0 || r == 1
    ensures r < 0 <==> a < b
    ensures r > 0 <==> b < a
  {
    CompareInt(a, b)
  }

  function CompareUInt64(a: UInt64, b: UInt64): (r: int)
    ensures r == -1 || r == 0 || r == 1
    ensures r < 0 <==> a < b
    ensures r > 0 <==> b < a
  {
    CompareInt(a, b)
  }

  function CompareInt8(a: Int8, b: Int8): (r: int)
    ensures r == -1 || r == 0 || r == 1
    ensures r < 0 <==> a < b
    ensures r > 0 <==> b < a
  {
    CompareInt(a, b)
  }

  function CompareInt16(a: Int16, b: Int16): (r: int)
    ensures r == -1 || r == 0 || r == 1
    ensures r < 0 <==> a < b
    ensures r > 0 <==> b < a
  {
    CompareInt(a, b)
  }

  function CompareInt32(a: Int32, b: Int32): (r: int)
    ensures r == -1 || r == 0 || r == 1
    ensures r < 0 <==> a < b
    ensures r > 0 <==> b < a
  {
    CompareInt(a, b)
  }

  function CompareInt64(a: Int64, b: Int64): (r: int)
    ensures r == -1 || r == 0 || r == 1
    ensures r < 0 <==> a < b
    ensures r > 0 <==> b < a
  {
    CompareInt(a, b)
  }

  /** The integer comparators meet the comparator contract. */
  lemma CompareIntIsCompareFn()
    ensures IsCompareFn(CompareInt)
  {
  }

  lemma CompareUInt8IsCompareFn()
    ensures IsCompareFn(CompareUInt8)
  {
  }

  lemma CompareUInt16IsCompareFn()
    ensures IsCompareFn(CompareUInt16)
  {
  }

  lemma CompareUInt32IsCompareFn()
    ensures IsCompareFn(CompareUInt32)
  {
  }

  lemma CompareUInt64IsCompareFn()
    ensures IsCompareFn(CompareUInt64)
  {
  }

  lemma CompareInt8IsCompareFn()
    ensures IsCompareFn(CompareInt8)
  {
  }

  lemma CompareInt16IsCompareFn()
    ensures IsCompareFn(CompareInt16)
  {
  }

  lemma CompareInt32IsCompareFn()
    ensures IsCompareFn(CompareInt32)
  {
  }

  lemma CompareInt64IsCompareFn()
    ensures IsCompareFn(CompareInt64)
  {
  }

  // ---------------------------------------------------------------------
  // Strings

  type Byte = UInt8

  /** Go's `<` on strings: bytewise lexicographic order, a proper prefix first. */
  predicate LexLess(a: seq<Byte>, b: seq<Byte>)
    decreases |a|
  {
    if |a| == 0 then |b| > 0
    else if |b| == 0 then false
    else if a[0] != b[0] then a[0] < b[0]
    else LexLess(a[1..], b[1..])
  }

  /**
   The same order stated directly: `a` comes first when, after their longest
   common prefix, `a` ends or has the smaller byte.
   */
  ghost predicate LexBefore(a: seq<Byte>, b: seq<Byte>) {
    exists k :: 0 <= k <= |a| && k <= |b| && a[..k] == b[..k]
      && ((k == |a| && k < |b|) || (k < |a| && k < |b| && a[k] < b[k]))
  }

  /** The three-way comparison of two strings (stdcompare.go:172-182). */
  function CompareString(a: seq<Byte>, b: seq<Byte>): (r: int)
    ensures r == -1 || r == 0 || r == 1
    ensures r < 0 <==> LexBefore(a, b)
    ensures r > 0 <==> LexBefore(b, a)
    ensures r == 0 <==> a == b
  {
    LexLessIsLexBefore(a, b);
    LexLessIsLexBefore(b, a);
    LexLessTotal(a, b);
    LexLessIrreflexive(a);
    if LexLess(a, b) then -1
    else if LexLess(b, a) then 1
    else 0
  }

  /** The recursive order agrees with the common-prefix formulation. */
  lemma LexLessIsLexBefore(a: seq<Byte>, b: seq<Byte>)
    ensures LexLess(a, b) <==> LexBefore(a, b)
  {
    if LexLess(a, b) {
      LexLessToBefore(a, b);
    }
    if LexBefore(a, b) {
      LexBeforeToLess(a, b);
    }
  }

  lemma {:induction false} LexLessToBefore(a: seq<Byte>, b: seq<Byte>)
    requires LexLess(a, b)
    ensures LexBefore(a, b)
    decreases |a|
  {
    if |a| == 0 || a[0] != b[0] {
      assert a[..0] == b[..0];
    } else {
      LexLessToBefore(a[1..], b[1..]);
      var k :| 0 <= k <= |a[1..]| && k <= |b[1..]| && a[1..][..k] == b[1..][..k]
        && ((k == |a[1..]| && k < |b[1..]|) || (k < |a[1..]| && k < |b[1..]| && a[1..][k] < b[1..][k]));
      assert a[..k + 1] == [a[0]] + a[1..][..k];
      assert b[..k + 1] == [b[0]] + b[1..][..k];
    }
  }

  lemma {:induction false} LexBeforeToLess(a: seq<Byte>, b: seq<Byte>)
    requires LexBefore(a, b)
    ensures LexLess(a, b)
    decreases |a|
  {
    var k :| 0 <= k <= |a| && k <= |b| && a[..k] == b[..k]
      && ((k == |a| && k < |b|) || (k < |a| && k < |b| && a[k] < b[k]));
    if k > 0 {
      assert a[0] == a[..k][0] == b[..k][0] == b[0];
      assert a[1..][..k - 1] == a[..k][1..] == b[..k][1..] == b[1..][..k - 1];
      assert a[1..][k - 1..] == a[k..] && b[1..][k - 1..] == b[k..];
      LexBeforeToLess(a[1..], b[1..]);
    }
  }

  lemma {:induction false} LexLessIrreflexive(a: seq<Byte>)
    ensures !LexLess(a, a)
    decreases |a|
  {
    if |a| > 0 {
      LexLessIrreflexive(a[1..]);
    }
  }

  /** Of two different strings one is before the other. */
  lemma {:induction false} LexLessTotal(a: seq<Byte>, b: seq<Byte>)
    ensures a == b || LexLess(a, b) || LexLess(b, a)
    decreases |a|
  {
    if |a| > 0 && |b| > 0 && a[0] == b[0] {
      LexLessTotal(a[1..], b[1..]);
      if a[1..] == b[1..] {
        assert a == [a[0]] + a[1..] && b == [b[0]] + b[1..];
      }
    }
  }

  lemma {:induction false} LexLessAsymmetric(a: seq<Byte>, b: seq<Byte>)
    ensures !(LexLess(a, b) && LexLess(b, a))
    decreases |a|
  {
    if |a| > 0 && |b| > 0 && a[0] == b[0] {
      LexLessAsymmetric(a[1..], b[1..]);
    }
  }

  lemma {:induction false} LexLessTransitive(a: seq<Byte>, b: seq<Byte>, c: seq<Byte>)
    requires LexLess(a, b) && LexLess(b, c)
    ensures LexLess(a, c)
    decreases |a|
  {
    if |a| > 0 && a[0] == b[0] && b[0] == c[0] {
      LexLessTransitive(a[1..], b[1..], c[1..]);
    }
  }

  /** The string comparator meets the comparator contract. */
  lemma CompareStringIsCompareFn()
    ensures IsCompareFn(CompareString)
  {
    forall a, b
      ensures CompareString(a, b) < 0 <==> CompareString(b, a) > 0
    {
      LexLessIsLexBefore(a, b);
    }
    forall a, b, c | CompareString(a, b) < 0 && CompareString(b, c) < 0
      ensures CompareString(a, c) < 0
    {
      LexLessIsLexBefore(a, b);
      LexLessIsLexBefore(b, c);
      LexLessIsLexBefore(a, c);
      LexLessTransitive(a, b, c);
    }
  }
}
