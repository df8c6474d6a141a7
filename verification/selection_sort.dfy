/** Selection sort. Unlike the other sorts, its `sort(data, low, high)` treats `high` as
    exclusive: it sorts `[low, high)`, and `sort(data)` passes `data.length`. */
module SelectionSort {
  import opened SortSpec
  import Utilities

  /** The inner loop: the index of the first minimal key in `[i, high)`. */
  method MinIndex<T>(data: seq<T>, key: T -> int, i: int, high: int) returns (min: int)
    requires 0 <= i < high <= |data|
    ensures i <= min < high
    ensures forall k :: i <= k < high ==> key(data[min]) <= key(data[k])
    ensures forall k :: i <= k < min ==> key(data[k]) > key(data[min])
  {
    min := i;
    var j := i;
    while j < high
      invariant i <= j <= high && i <= min < high && (min < j || min == i)
      invariant forall k :: i <= k < j ==> key(data[min]) <= key(data[k])
      invariant forall k :: i <= k < min ==> key(data[k]) > key(data[min])
    {
      if key(data[j]) < key(data[min]) {
        min := j;
      }
      j := j + 1;
    }
  }

  /** `sort(data, low, high)`: sorts the half-open segment `[low, high)` and leaves every
      other index alone; with `low >= high` it does nothing. Any other range must lie
      inside the array, or the Java code indexes out of bounds. */
  method SortRange<T>(data: seq<T>, key: T -> int, low: int, high: int) returns (r: seq<T>)
    requires low >= high || (0 <= low && high <= |data|)
    ensures 0 <= low <= high <= |data| ==> SortsBetween(data, r, key, low, high)
    ensures low >= high ==> r == data
  {
    r := data;
    if low >= high {
      return;  // the loop below would not run
    }
    var i := low;
    while i < high
      invariant low <= i <= high
      invariant Permutes(data, r, low, high)
      invariant SortedBetween(r, key, low, i)
      invariant forall a, b :: low <= a < i <= b < high ==> key(r[a]) <= key(r[b])
    {
      var min := MinIndex(r, key, i, high);
      var prev := r;
      Utilities.SwapPermutes(prev, min, i, low, high);
      r := Utilities.Swap(prev, min, i);
      PermutesTrans(data, prev, r, low, high);
      assert forall k :: i < k < high ==> key(r[i]) <= key(r[k]);
      i := i + 1;
    }
  }

  /** `sort(data)`: sorts the whole array. */
  method Sort<T>(data: seq<T>, key: T -> int) returns (r: seq<T>)
    ensures SortsBetween(data, r, key, 0, |data|)
  {
    r := SortRange(data, key, 0, |data|);
  }

  /** Called with an inclusive upper bound, as the interval tests call every sort, the
      range sort leaves the last element out: on [2, 1] with `low = 0, high = 1` nothing
      moves and the result is not sorted. */
  method InclusiveCallLeavesLastOut() returns (r: seq<int>)
    ensures r == [2, 1]
    ensures !SortedBetween(r, IntKey, 0, 2)
  {
    r := SortRange([2, 1], IntKey, 0, 1);
    assert r[0..1] == [r[0]];
    assert multiset([2, 1][0..1]) == multiset{2};
    assert r[0] in multiset(r[0..1]);
    assert IntKey(r[0]) > IntKey(r[1]);
  }

  /** The inclusive range sort the interval tests expect: `[low, high]` is sorted. */
  method SortInclusive<T>(data: seq<T>, key: T -> int, low: int, high: int) returns (r: seq<T>)
    requires low > high || (0 <= low && high < |data|)
    ensures 0 <= low <= high < |data| ==> SortsBetween(data, r, key, low, high + 1)
    ensures low > high ==> r == data
  {
    r := SortRange(data, key, low, high + 1);
  }
}
