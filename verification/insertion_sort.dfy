/** Insertion sort of the inclusive segment `[low, high]`: each element in turn is lifted
    out and the strictly greater elements before it are shifted one place right, so that
    it falls into place after any element with an equal key. */
module InsertionSort {
  import opened SortSpec

  /** One pass of the inner loop: `a[i]` is moved down to position `j`, past exactly the
      elements of `a[low..i)` that are strictly greater than it. `j` is where the Java loop
      leaves `j + 1`. */
  method InsertStep<T>(a: seq<T>, key: T -> int, low: int, i: int) returns (r: seq<T>, j: int)
    requires 0 <= low < i < |a|
    ensures low <= j <= i
    ensures r == a[..j] + [a[i]] + a[j..i] + a[i + 1..]
    ensures forall k :: j <= k < i ==> key(a[k]) > key(a[i])
    ensures j > low ==> key(a[j - 1]) <= key(a[i])
    ensures IsInsertStep(a, r, key, low, i, j)
  {
    var jj;
    r, jj := ShiftGreater(a, key, low, i);
    r := r[jj + 1 := a[i]];
    j := jj + 1;
    Shifted(a, r, j, i);
  }

  /** The inner loop of one pass: shifts right, one place each, the elements before `i`
      whose key is strictly greater than `a[i]`'s, walking down from `i - 1`, and stops at
      `jj`, the first element from the right that is not greater (or at `low - 1`). */
  method ShiftGreater<T>(a: seq<T>, key: T -> int, low: int, i: int) returns (r: seq<T>, jj: int)
    requires 0 <= low < i < |a|
    ensures low - 1 <= jj <= i - 1 && |r| == |a|
    ensures forall t :: 0 <= t <= jj ==> r[t] == a[t]
    ensures forall t :: jj + 2 <= t <= i ==> r[t] == a[t - 1]
    ensures forall t :: i < t < |a| ==> r[t] == a[t]
    ensures forall k :: jj < k < i ==> key(a[k]) > key(a[i])
    ensures jj >= low ==> key(a[jj]) <= key(a[i])
  {
    var datum := a[i];
    jj := i - 1;
    r := a;
    while jj >= low && key(datum) < key(r[jj])
      invariant low - 1 <= jj <= i - 1
      invariant |r| == |a|
      invariant forall t :: 0 <= t <= jj ==> r[t] == a[t]
      invariant forall t :: jj + 2 <= t <= i ==> r[t] == a[t - 1]
      invariant forall t :: i < t < |a| ==> r[t] == a[t]
      invariant forall k :: jj < k < i ==> key(a[k]) > key(datum)
    {
      r := r[jj + 1 := r[jj]];
      jj := jj - 1;
    }
  }

  /** A sequence that agrees with `a` before `j`, holds `a[i]` at `j`, holds `a[t - 1]` at
      each `t` in `(j, i]` and agrees with `a` after `i` is `a` with `a[i]` moved to `j`. */
  lemma Shifted<T>(a: seq<T>, r: seq<T>, j: int, i: int)
    requires 0 <= j <= i < |a| == |r| && r[j] == a[i]
    requires forall t :: 0 <= t < j ==> r[t] == a[t]
    requires forall t :: j + 1 <= t <= i ==> r[t] == a[t - 1]
    requires forall t :: i < t < |a| ==> r[t] == a[t]
    ensures r == a[..j] + [a[i]] + a[j..i] + a[i + 1..]
  {
    var s := a[..j] + [a[i]] + a[j..i] + a[i + 1..];
    assert forall t :: 0 <= t < |r| ==> r[t] == s[t];
  }

  /** One round of the outer loop: inserting `prev[i]` into the sorted, stably permuted
      prefix `[low, i)` gives a sorted, stably permuted prefix `[low, i]`. */
  method InsertRound<T>(data: seq<T>, prev: seq<T>, key: T -> int, low: int, i: int) returns (r: seq<T>)
    requires 0 <= low < i < |prev| && StablySortsBetween(data, prev, key, low, i)
    ensures StablySortsBetween(data, r, key, low, i + 1)
  {
    var j;
    r, j := InsertStep(prev, key, low, i);
    InsertedInPrefix(data, prev, r, key, low, i, j);
  }

  /** Why one round keeps the prefix stably sorted. */
  lemma InsertedInPrefix<T>(data: seq<T>, prev: seq<T>, r: seq<T>, key: T -> int, low: int, i: int, j: int)
    requires 0 <= low <= j <= i < |prev| && StablySortsBetween(data, prev, key, low, i)
    requires IsInsertStep(prev, r, key, low, i, j)
    ensures StablySortsBetween(data, r, key, low, i + 1)
  {
    InsertStepStable(prev, r, key, low, i, j);
    InsertStepSorted(prev, r, key, low, i, j);
    StablyPermutesExtend(data, prev, key, low, i);
    StablyPermutesTrans(data, prev, r, key, low, i + 1);
  }

  /** The shape of one insertion step, as `InsertStep` guarantees it. */
  ghost predicate IsInsertStep<T>(a: seq<T>, r: seq<T>, key: T -> int, low: int, i: int, j: int)
    requires 0 <= low <= j <= i < |a|
  {
    && r == a[..j] + [a[i]] + a[j..i] + a[i + 1..]
    && (forall k :: j <= k < i ==> key(a[k]) > key(a[i]))
    && (j > low ==> key(a[j - 1]) <= key(a[i]))
  }

  /** The segment `[low, i]` before and after the step, as three pieces. */
  lemma InsertStepPieces<T>(a: seq<T>, r: seq<T>, key: T -> int, low: int, i: int, j: int)
    requires 0 <= low <= j <= i < |a| && IsInsertStep(a, r, key, low, i, j)
    ensures a[low..i + 1] == a[low..j] + a[j..i] + [a[i]]
    ensures r[low..i + 1] == a[low..j] + [a[i]] + a[j..i]
    ensures SameOutside(a, r, low, i + 1)
  {
  }

  /** Moving `x` in front of a block of elements with strictly greater keys changes no
      key's selection. */
  lemma MoveBeforeGreater<T>(pre: seq<T>, mid: seq<T>, x: T, key: T -> int, v: int)
    requires forall k :: 0 <= k < |mid| ==> key(mid[k]) > key(x)
    ensures WithKey(pre + [x] + mid, key, v) == WithKey(pre + mid + [x], key, v)
  {
    WithKeyAppend(pre + mid, [x], key, v);
    WithKeyAppend(pre, mid, key, v);
    WithKeyAppend(pre + [x], mid, key, v);
    WithKeyAppend(pre, [x], key, v);
    if key(x) == v {
      NoneWithKey(mid, key, v);
    }
  }

  /** One insertion step permutes `[low, i]`, keeping equal keys in order. */
  lemma InsertStepStable<T>(a: seq<T>, r: seq<T>, key: T -> int, low: int, i: int, j: int)
    requires 0 <= low <= j <= i < |a| && IsInsertStep(a, r, key, low, i, j)
    ensures StablyPermutes(a, r, key, low, i + 1)
  {
    InsertStepPieces(a, r, key, low, i, j);
    var x, pre, mid := a[i], a[low..j], a[j..i];
    var before, after := a[low..i + 1], r[low..i + 1];
    assert multiset(after) == multiset(before);
    forall v
      ensures WithKey(after, key, v) == WithKey(before, key, v)
    {
      MoveBeforeGreater(pre, mid, x, key, v);
    }
  }

  /** One insertion step extends a sorted prefix `[low, i)` to `[low, i]`. */
  lemma InsertStepSorted<T>(a: seq<T>, r: seq<T>, key: T -> int, low: int, i: int, j: int)
    requires 0 <= low <= j <= i < |a| && IsInsertStep(a, r, key, low, i, j)
    requires SortedBetween(a, key, low, i)
    ensures SortedBetween(r, key, low, i + 1)
  {
    var x := a[i];
    assert forall k :: low <= k < j ==> r[k] == a[k];
    assert r[j] == x;
    assert forall k :: j < k <= i ==> r[k] == a[k - 1];
    forall a', b' | low <= a' < b' < i + 1
      ensures key(r[a']) <= key(r[b'])
    {
      if b' == j && a' < j {
        assert key(a[a']) <= key(a[j - 1]);
      }
    }
  }

  /** No element has key `v` when every key is greater than `v`. */
  lemma {:induction false} NoneWithKey<T>(s: seq<T>, key: T -> int, v: int)
    requires forall k :: 0 <= k < |s| ==> key(s[k]) > v
    ensures WithKey(s, key, v) == []
    decreases |s|
  {
    if s != [] {
      NoneWithKey(s[1..], key, v);
    }
  }

  /** `sort(data, low, high)`: sorts the inclusive segment `[low, high]` stably and leaves
      every other index alone; with `low >= high` it does nothing. Any other range must lie
      inside the array, or the Java code indexes out of bounds. */
  method SortRange<T>(data: seq<T>, key: T -> int, low: int, high: int) returns (r: seq<T>)
    requires low >= high || (0 <= low && high < |data|)
    ensures 0 <= low <= high < |data| ==> StablySortsBetween(data, r, key, low, high + 1)
    ensures low >= high ==> r == data
  {
    r := data;
    if low >= high {
      return;  // the loop below would not run
    }
    var i := low + 1;
    while i < high + 1
      invariant low + 1 <= i <= high + 1
      invariant StablySortsBetween(data, r, key, low, i)
    {
      r := InsertRound(data, r, key, low, i);
      i := i + 1;
    }
  }

  /** `sort(data)`: sorts the whole array; an empty array is left as it is. */
  method Sort<T>(data: seq<T>, key: T -> int) returns (r: seq<T>)
    ensures StablySortsBetween(data, r, key, 0, |data|)
  {
    r := SortRange(data, key, 0, |data| - 1);
  }
}
