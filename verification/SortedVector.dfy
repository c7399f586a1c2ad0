/**
 The binary search of SortedVectorImpl, over elements ordered by `operator <`.
 */
module SortedVector {

  const NAME_NOT_FOUND := -2

  /** strictly_order_type. */
  function StrictlyOrder<T>(less: (T, T) -> bool, lhs: T, rhs: T): int {
    if less(lhs, rhs) then 1 else 0
  }

  /** compare_type. */
  function Compare<T>(less: (T, T) -> bool, lhs: T, rhs: T): int {
    StrictlyOrder(less, rhs, lhs) - StrictlyOrder(less, lhs, rhs)
  }

  /** What `operator <` of an element type is expected to be: a strict weak order. */
  ghost predicate IsStrictWeakOrder<T(!new)>(less: (T, T) -> bool) {
    && (forall x, y :: less(x, y) ==> !less(y, x))
    && (forall x, y, z :: less(x, z) ==> less(x, y) || less(y, z))
  }

  ghost predicate IsSorted<T>(less: (T, T) -> bool, a: seq<T>) {
    forall i, j :: 0 <= i < j < |a| ==> !less(a[j], a[i])
  }

  /** The sign of a comparison says which comes first. */
  lemma CompareSign<T(!new)>(less: (T, T) -> bool, lhs: T, rhs: T)
    requires IsStrictWeakOrder(less)
    ensures Compare(less, lhs, rhs) < 0 <==> less(lhs, rhs)
    ensures Compare(less, lhs, rhs) > 0 <==> less(rhs, lhs)
    ensures Compare(less, lhs, rhs) == 0 <==> !less(lhs, rhs) && !less(rhs, lhs)
  {
  }

  lemma BelowMid<T(!new)>(less: (T, T) -> bool, a: seq<T>, item: T, mid: nat)
    requires IsStrictWeakOrder(less) && IsSorted(less, a) && mid < |a| && less(a[mid], item)
    ensures forall i :: 0 <= i <= mid ==> less(a[i], item)
  {
    forall i | 0 <= i < mid ensures less(a[i], item) {
      assert less(a[mid], a[i]) || less(a[i], item);
    }
  }

  lemma AboveMid<T(!new)>(less: (T, T) -> bool, a: seq<T>, item: T, mid: nat)
    requires IsStrictWeakOrder(less) && IsSorted(less, a) && mid < |a| && less(item, a[mid])
    ensures forall i :: mid <= i < |a| ==> less(item, a[i])
  {
    forall i | mid < i < |a| ensures less(item, a[i]) {
      assert !less(a[i], a[mid]);
    }
  }

  /**
   _indexOrderOf: an element that compares equal, and where it is; or no element does,
   and then where the item belongs.
   */
  method IndexOrderOf<T(!new)>(a: seq<T>, item: T, less: (T, T) -> bool) returns (err: int, order: nat)
    requires IsStrictWeakOrder(less) && IsSorted(less, a)
    ensures err == NAME_NOT_FOUND || err == order
    ensures err >= 0 ==> order < |a| && Compare(less, a[order], item) == 0
    ensures err < 0 <==> forall i :: 0 <= i < |a| ==> Compare(less, a[i], item) != 0
    ensures order <= |a|
    ensures err < 0 ==> forall i :: 0 <= i < order ==> less(a[i], item)
    ensures err < 0 ==> forall i :: order <= i < |a| ==> less(item, a[i])
  {
    if |a| == 0 {
      return NAME_NOT_FOUND, 0;
    }
    var l, h := 0, |a| - 1;
    while l <= h
      invariant 0 <= l <= h + 1 <= |a|
      invariant forall i :: 0 <= i < l ==> less(a[i], item)
      invariant forall i :: h < i < |a| ==> less(item, a[i])
    {
      var mid := l + (h - l) / 2;
      CompareSign(less, a[mid], item);
      var c := Compare(less, a[mid], item);
      if c == 0 {
        return mid, mid;
      } else if c < 0 {
        BelowMid(less, a, item, mid);
        l := mid + 1;
      } else {
        AboveMid(less, a, item, mid);
        h := mid - 1;
      }
    }
    return NAME_NOT_FOUND, l;
  }
}
