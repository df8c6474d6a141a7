/** Quick sort of the inclusive segment `[low, high]` with Hoare's partition around the
    segment's first element; segments of at most twelve elements (`high <= low + 11`) go to
    insertion sort, and the whole-array sort shuffles first. */
module QuickSort {
  import opened SortSpec
  import Utilities
  import InsertionSort

  /** `SORT_CUTOFF`. */
  const SortCutoff: int := 11

  /** Every key in the inclusive range `[from, to]` is at most `bound`. */
  ghost predicate AtMost<T>(s: seq<T>, key: T -> int, from: int, to: int, bound: int) {
    forall k :: from <= k <= to && 0 <= k < |s| ==> key(s[k]) <= bound
  }

  /** Every key in the inclusive range `[from, to]` is at least `bound`. */
  ghost predicate AtLeast<T>(s: seq<T>, key: T -> int, from: int, to: int, bound: int) {
    forall k :: from <= k <= to && 0 <= k < |s| ==> key(s[k]) >= bound
  }

  /** `partition(data, low, high)`: with `pivot = data[low]`, the left index climbs past
      keys below the pivot's, the right index descends past keys above it, and the two
      cells they stop at are exchanged until the indices meet. The returned `p` splits
      the segment into `[low, p]`, no key above the pivot's, and `[p + 1, high]`, no key
      below it, and neither part is empty. */
  method Partition<T>(data: seq<T>, key: T -> int, low: int, high: int) returns (r: seq<T>, p: int)
    requires 0 <= low < high < |data|
    ensures Permutes(data, r, low, high + 1)
    ensures low <= p < high
    ensures AtMost(r, key, low, p, key(data[low]))
    ensures AtLeast(r, key, p + 1, high, key(data[low]))
  {
    var pivot := key(data[low]);
    r := data;
    var i, j := low - 1, high + 1;
    while true
      invariant low - 1 <= i < j <= high + 1
      invariant i == low - 1 ==> j == high + 1 && r == data
      invariant i >= low ==> j <= high
      invariant Permutes(data, r, low, high + 1)
      invariant AtMost(r, key, low, i, pivot)
      invariant AtLeast(r, key, j, high, pivot)
      decreases j - i
    {
      // The left scan stops at the pivot itself on the first round, and at the cell the
      // right index last stopped at on every later one; the right scan likewise stops at
      // the pivot or at the left index's last cell.
      ghost var first, i0, j0 := i == low - 1, i, j;
      i := ScanUp(r, key, pivot, i, if first then low else j);
      j := ScanDown(r, key, pivot, j, if first then low else i0);
      ScannedBounds(r, key, pivot, low, high, i0, i, j, j0);
      if i >= j {
        p := j;
        return;
      }
      r := Exchange(data, r, key, pivot, low, high, i, j);
    }
  }

  /** `while (data[++i].compareTo(pivot) < 0);`: the first index after `i` whose key is not
      below `pivot`; the cell `stop` is known to end the scan. */
  method ScanUp<T>(r: seq<T>, key: T -> int, pivot: int, i: int, ghost stop: int) returns (i': int)
    requires i < stop < |r| && 0 <= i + 1 && key(r[stop]) >= pivot
    ensures i < i' <= stop && key(r[i']) >= pivot
    ensures forall k :: i < k < i' ==> key(r[k]) < pivot
  {
    i' := i + 1;
    while key(r[i']) < pivot
      invariant i < i' <= stop
      invariant forall k :: i < k < i' ==> key(r[k]) < pivot
      decreases stop - i'
    {
      i' := i' + 1;
    }
  }

  /** `while (data[--j].compareTo(pivot) > 0);`: the last index before `j` whose key is not
      above `pivot`; the cell `stop` is known to end the scan. */
  method ScanDown<T>(r: seq<T>, key: T -> int, pivot: int, j: int, ghost stop: int) returns (j': int)
    requires 0 <= stop < j <= |r| && key(r[stop]) <= pivot
    ensures stop <= j' < j && key(r[j']) <= pivot
    ensures forall k :: j' < k < j ==> key(r[k]) > pivot
  {
    j' := j - 1;
    while key(r[j']) > pivot
      invariant stop <= j' < j
      invariant forall k :: j' < k < j ==> key(r[k]) > pivot
      decreases j' - stop
    {
      j' := j' - 1;
    }
  }

  /** After both scans of a round, the cells left of `i` and right of `j` are on their
      proper sides, and so is `[low, j]` once the indices have met. */
  lemma ScannedBounds<T>(r: seq<T>, key: T -> int, pivot: int, low: int, high: int, i0: int, i: int, j: int, j0: int)
    requires 0 <= low && high < |r| && low - 1 <= i0 < i <= high && low <= j < j0 <= high + 1
    requires AtMost(r, key, low, i0, pivot) && AtLeast(r, key, j0, high, pivot)
    requires forall k :: i0 < k < i ==> key(r[k]) < pivot
    requires forall k :: j < k < j0 ==> key(r[k]) > pivot
    requires key(r[j]) <= pivot && (i0 >= low ==> i0 <= j)
    ensures AtMost(r, key, low, i - 1, pivot) && AtLeast(r, key, j + 1, high, pivot)
    ensures i >= j ==> AtMost(r, key, low, j, pivot)
  {
  }

  /** `swap(data, i, j)` at the end of a round: the two stopped cells change sides. */
  method Exchange<T>(data: seq<T>, r: seq<T>, key: T -> int, pivot: int, low: int, high: int, i: int, j: int)
    returns (r': seq<T>)
    requires 0 <= low <= i < j <= high < |r| && Permutes(data, r, low, high + 1)
    requires key(r[i]) >= pivot && key(r[j]) <= pivot
    requires AtMost(r, key, low, i - 1, pivot) && AtLeast(r, key, j + 1, high, pivot)
    ensures Permutes(data, r', low, high + 1)
    ensures AtMost(r', key, low, i, pivot) && AtLeast(r', key, j, high, pivot)
  {
    r' := Utilities.Swap(r, i, j);
    Utilities.SwapKeepsPermutation(data, r, i, j, low, high + 1);
    assert AtMost(r', key, low, i, pivot) by {
      assert forall k :: low <= k < i ==> r'[k] == r[k];
    }
    assert AtLeast(r', key, j, high, pivot) by {
      assert forall k :: j < k <= high ==> r'[k] == r[k];
    }
  }

  /** Two sorted parts with every key of the first at most `pivot` and every key of the
      second at least `pivot` make a sorted whole. */
  lemma SortedAcrossPivot<T>(s: seq<T>, key: T -> int, low: int, p: int, high: int, pivot: int)
    requires 0 <= low <= p < high < |s|
    requires SortedBetween(s, key, low, p + 1) && SortedBetween(s, key, p + 1, high + 1)
    requires AtMost(s, key, low, p, pivot) && AtLeast(s, key, p + 1, high, pivot)
    ensures SortedBetween(s, key, low, high + 1)
  {
  }

  /** After a partition, sorting both parts separately sorts the segment. */
  lemma PartsSorted<T>(r0: seq<T>, r1: seq<T>, r2: seq<T>, key: T -> int, low: int, p: int, high: int, pivot: int)
    requires 0 <= low <= p < high < |r0|
    requires AtMost(r0, key, low, p, pivot) && AtLeast(r0, key, p + 1, high, pivot)
    requires SortsBetween(r0, r1, key, low, p + 1)
    requires SortsBetween(r1, r2, key, p + 1, high + 1)
    ensures SortedBetween(r2, key, low, high + 1)
  {
    assert AtMost(r2, key, low, p, pivot) && SortedBetween(r2, key, low, p + 1) by {
      BoundSurvivesPermutation(r0, r1, key, low, p + 1, pivot, true);
      assert forall k :: low <= k <= p ==> r2[k] == r1[k];
    }
    assert AtLeast(r2, key, p + 1, high, pivot) by {
      assert AtLeast(r1, key, p + 1, high, pivot);
      BoundSurvivesPermutation(r1, r2, key, p + 1, high + 1, pivot, false);
    }
    SortedAcrossPivot(r2, key, low, p, high, pivot);
  }

  /** Partitioning and then permuting each part permutes the segment. */
  lemma PartsPermute<T>(data: seq<T>, r0: seq<T>, r1: seq<T>, r2: seq<T>, low: int, p: int, high: int)
    requires 0 <= low <= p < high < |data|
    requires Permutes(data, r0, low, high + 1)
    requires Permutes(r0, r1, low, p + 1) && Permutes(r1, r2, p + 1, high + 1)
    ensures Permutes(data, r2, low, high + 1)
  {
    PermutesJoin(r0, r1, r2, low, p + 1, high + 1);
    PermutesTrans(data, r0, r2, low, high + 1);
  }

  /** The private recursive `quickSort(data, low, high)`. */
  method SortSegment<T>(data: seq<T>, key: T -> int, low: int, high: int) returns (r: seq<T>)
    requires low >= high || (0 <= low && high < |data|)
    ensures 0 <= low <= high < |data| ==> SortsBetween(data, r, key, low, high + 1)
    ensures low >= high ==> r == data
    decreases high - low
  {
    if high <= low + SortCutoff {
      r := InsertionSort.SortRange(data, key, low, high);
      return;
    }
    var r0, p := Partition(data, key, low, high);
    var r1 := SortSegment(r0, key, low, p);
    assert |r1| == |data|;
    r := SortSegment(r1, key, p + 1, high);
    if p == low {
      ShortSegmentSorted(r1, key, low, low + 1);
    }
    PartsSorted(r0, r1, r, key, low, p, high, key(data[low]));
    PartsPermute(data, r0, r1, r, low, p, high);
  }

  /** The public `sort(data, low, high)`. */
  method SortRange<T>(data: seq<T>, key: T -> int, low: int, high: int) returns (r: seq<T>)
    requires low >= high || (0 <= low && high < |data|)
    ensures 0 <= low <= high < |data| ==> SortsBetween(data, r, key, low, high + 1)
    ensures low >= high ==> r == data
  {
    r := SortSegment(data, key, low, high);
  }

  /** `sort(data)`: shuffles (with the draws `draw` standing for `Math.random`), then sorts
      the whole array. Whatever the draws, the result is a sorted permutation. */
  method Sort<T>(data: seq<T>, key: T -> int, draw: int -> int) returns (r: seq<T>)
    ensures SortsBetween(data, r, key, 0, |data|)
  {
    var shuffled := Utilities.Shuffle(data, draw);
    r := SortSegment(shuffled, key, 0, |data| - 1);
    if |data| <= 1 {
      ShortSegmentSorted(r, key, 0, |data|);
    }
    PermutesTrans(data, shuffled, r, 0, |data|);
  }
}
