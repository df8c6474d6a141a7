/** Top-down merge sort of the inclusive segment `[low, high]` with an auxiliary array;
    segments of at most twelve elements (`high <= low + 11`) go to insertion sort. */
module MergeSort {
  import opened Wrappers
  import opened SortSpec
  import InsertionSort

  /** `SORT_THRESHOLD`. */
  const SortThreshold: int := 11

  /** The merge of two sequences that takes from `b` only when its head has a strictly
      smaller key than the head of `a`, so ties go to `a`. */
  function MergeSeq<T>(a: seq<T>, b: seq<T>, key: T -> int): (r: seq<T>)
    ensures |r| == |a| + |b|
    decreases |a| + |b|
  {
    if a == [] then b
    else if b == [] then a
    else if key(b[0]) < key(a[0]) then [b[0]] + MergeSeq(a, b[1..], key)
    else [a[0]] + MergeSeq(a[1..], b, key)
  }

  /** The merge holds exactly the elements of both inputs. */
  lemma {:induction false} MergePermutes<T>(a: seq<T>, b: seq<T>, key: T -> int)
    ensures multiset(MergeSeq(a, b, key)) == multiset(a) + multiset(b)
    decreases |a| + |b|
  {
    if a != [] && b != [] {
      if key(b[0]) < key(a[0]) {
        var m := MergeSeq(a, b[1..], key);
        assert MergeSeq(a, b, key) == [b[0]] + m;
        MergePermutes(a, b[1..], key);
        assert b == [b[0]] + b[1..];
        TakenFromRight(b[0], m, multiset(a), b[1..], b);
      } else {
        var m := MergeSeq(a[1..], b, key);
        assert MergeSeq(a, b, key) == [a[0]] + m;
        MergePermutes(a[1..], b, key);
        assert a == [a[0]] + a[1..];
        TakenFromLeft(a[0], m, a[1..], a, multiset(b));
      }
    }
  }

  /** Taking the head `x` of `whole` in front of a merge of `left` with the rest of `whole`
      gives the elements of both. */
  lemma TakenFromRight<T>(x: T, m: seq<T>, left: multiset<T>, rest: seq<T>, whole: seq<T>)
    requires multiset(m) == left + multiset(rest) && whole == [x] + rest
    ensures multiset([x] + m) == left + multiset(whole)
  {
  }

  /** Taking the head `x` of `whole` in front of a merge of the rest of `whole` with
      `right` gives the elements of both. */
  lemma TakenFromLeft<T>(x: T, m: seq<T>, rest: seq<T>, whole: seq<T>, right: multiset<T>)
    requires multiset(m) == multiset(rest) + right && whole == [x] + rest
    ensures multiset([x] + m) == multiset(whole) + right
  {
  }

  /** A key bound that holds for both inputs holds for their merge. */
  lemma {:induction false} MergeLowerBound<T>(a: seq<T>, b: seq<T>, key: T -> int, m: int)
    requires forall k :: 0 <= k < |a| ==> key(a[k]) >= m
    requires forall k :: 0 <= k < |b| ==> key(b[k]) >= m
    ensures forall k :: 0 <= k < |a| + |b| ==> key(MergeSeq(a, b, key)[k]) >= m
    decreases |a| + |b|
  {
    if a != [] && b != [] {
      if key(b[0]) < key(a[0]) {
        MergeLowerBound(a, b[1..], key, m);
      } else {
        MergeLowerBound(a[1..], b, key, m);
      }
    }
  }

  /** The merge of two sorted sequences is sorted. */
  lemma {:induction false} MergeSorted<T>(a: seq<T>, b: seq<T>, key: T -> int)
    requires SortedBetween(a, key, 0, |a|) && SortedBetween(b, key, 0, |b|)
    ensures SortedBetween(MergeSeq(a, b, key), key, 0, |a| + |b|)
    decreases |a| + |b|
  {
    if a != [] && b != [] {
      if key(b[0]) < key(a[0]) {
        MergeSorted(a, b[1..], key);
        MergeLowerBound(a, b[1..], key, key(b[0]));
        ConsSorted(b[0], MergeSeq(a, b[1..], key), key);
      } else {
        MergeSorted(a[1..], b, key);
        MergeLowerBound(a[1..], b, key, key(a[0]));
        ConsSorted(a[0], MergeSeq(a[1..], b, key), key);
      }
    }
  }

  /** A sorted sequence stays sorted behind a head with a key no larger than any of its. */
  lemma ConsSorted<T>(x: T, s: seq<T>, key: T -> int)
    requires SortedBetween(s, key, 0, |s|)
    requires forall k :: 0 <= k < |s| ==> key(s[k]) >= key(x)
    ensures SortedBetween([x] + s, key, 0, |s| + 1)
  {
    assert forall k :: 0 < k <= |s| ==> ([x] + s)[k] == s[k - 1];
  }

  /** The merge is stable: when `a` is sorted, the elements with any one key come out as
      those of `a` followed by those of `b`. */
  lemma {:induction false} MergeStable<T>(a: seq<T>, b: seq<T>, key: T -> int, v: int)
    requires SortedBetween(a, key, 0, |a|)
    ensures WithKey(MergeSeq(a, b, key), key, v) == WithKey(a, key, v) + WithKey(b, key, v)
    decreases |a| + |b|
  {
    if a != [] && b != [] {
      var r := MergeSeq(a, b, key);
      if key(b[0]) < key(a[0]) {
        var rest := MergeSeq(a, b[1..], key);
        MergeStable(a, b[1..], key, v);
        WithKeyAppend([b[0]], rest, key, v);
        WithKeyAppend([b[0]], b[1..], key, v);
        assert [b[0]] + b[1..] == b;
        if key(b[0]) == v {
          InsertionSort.NoneWithKey(a, key, v);
        } else {
          assert WithKey([b[0]], key, v) == [];
        }
      } else {
        var rest := MergeSeq(a[1..], b, key);
        MergeStable(a[1..], b, key, v);
        WithKeyAppend([a[0]], rest, key, v);
        WithKeyAppend([a[0]], a[1..], key, v);
        assert [a[0]] + a[1..] == a;
      }
    }
  }

  /** The merge of `a[i..]` and `b[j..]` written with positions instead of slices: the
      form that the loop of `merge` follows. */
  function MergeFrom<T>(a: seq<T>, b: seq<T>, key: T -> int, i: nat, j: nat): (r: seq<T>)
    requires i <= |a| && j <= |b|
    ensures |r| == |a| - i + |b| - j
    decreases |a| - i + |b| - j
  {
    if i == |a| then b[j..]
    else if j == |b| then a[i..]
    else if key(b[j]) < key(a[i]) then [b[j]] + MergeFrom(a, b, key, i, j + 1)
    else [a[i]] + MergeFrom(a, b, key, i + 1, j)
  }

  /** The positional merge is the merge of the two remaining slices. */
  lemma {:induction false} MergeFromIsMergeSeq<T>(a: seq<T>, b: seq<T>, key: T -> int, i: nat, j: nat)
    requires i <= |a| && j <= |b|
    ensures MergeFrom(a, b, key, i, j) == MergeSeq(a[i..], b[j..], key)
    decreases |a| - i + |b| - j
  {
    if i < |a| && j < |b| {
      assert a[i..][1..] == a[i + 1..] && b[j..][1..] == b[j + 1..];
      if key(b[j]) < key(a[i]) {
        MergeFromIsMergeSeq(a, b, key, i, j + 1);
      } else {
        MergeFromIsMergeSeq(a, b, key, i + 1, j);
      }
    }
  }

  /** The copy loop of `merge`: `aux[low..high]` takes the values of `data[low..high]`. */
  function CopyRange<T>(data: seq<T>, aux: seq<Nullable<T>>, low: int, high: int): (r: seq<Nullable<T>>)
    requires 0 <= low <= high < |data| && high < |aux|
    ensures |r| == |aux|
    ensures forall k :: low <= k <= high ==> r[k] == Value(data[k])
    ensures forall k :: 0 <= k < |aux| && !(low <= k <= high) ==> r[k] == aux[k]
  {
    seq(|aux|, k requires 0 <= k < |aux| => if low <= k <= high then Value(data[k]) else aux[k])
  }

  /** `merge(data, aux, low, mid, high)`: copies `[low, high]` into `aux`, then merges
      `aux[low..mid]` with `aux[mid + 1..high]` back into `data[low..high]`. */
  method Merge<T>(data: seq<T>, aux: seq<Nullable<T>>, key: T -> int, low: int, mid: int, high: int)
    returns (r: seq<T>, aux': seq<Nullable<T>>)
    requires 0 <= low <= mid < high < |data| && high < |aux|
    ensures |aux'| == |aux|
    ensures Permutes(data, r, low, high + 1)
    ensures SortedBetween(data, key, low, mid + 1) && SortedBetween(data, key, mid + 1, high + 1) ==>
      StablySortsBetween(data, r, key, low, high + 1)
  {
    aux' := CopyRange(data, aux, low, high);
    r := MergeBack(data, aux', key, low, mid, high);
    MergeResult(data, r, key, low, mid, high);
  }

  /** The merging loop of `merge`: reads both halves from `aux` and writes the merge of
      them over `data[low..high]`. */
  method MergeBack<T>(data: seq<T>, aux: seq<Nullable<T>>, key: T -> int, low: int, mid: int, high: int)
    returns (r: seq<T>)
    requires 0 <= low <= mid < high < |data| && high < |aux|
    requires forall k :: low <= k <= high ==> aux[k] == Value(data[k])
    ensures r == data[..low] + MergeSeq(data[low..mid + 1], data[mid + 1..high + 1], key) + data[high + 1..]
  {
    ghost var left, right := data[low..mid + 1], data[mid + 1..high + 1];
    ghost var m := MergeSeq(left, right, key);
    assert MergeFrom(left, right, key, 0, 0) == m[0..] by {
      MergeFromIsMergeSeq(left, right, key, 0, 0);
      assert left[0..] == left && right[0..] == right && m[0..] == m;
    }
    r := data;
    var i, j, k := low, mid + 1, low;
    // The positions reached in each half, and the number of values written.
    ghost var ii: nat, jj: nat, p: nat := 0, 0, 0;
    while k <= high
      invariant low <= i <= mid + 1 && mid + 1 <= j <= high + 1 && k == i + j - mid - 1
      invariant ii == i - low && jj == j - mid - 1 && p == k - low
      invariant |r| == |data|
      invariant forall t :: low <= t < k ==> r[t] == m[t - low]
      invariant forall t :: 0 <= t < |r| && !(low <= t < k) ==> r[t] == data[t]
      invariant MergeFrom(left, right, key, ii, jj) == m[p..]
    {
      r, i, j, k, ii, jj, p := MergeRound(data, aux, key, low, mid, high, left, right, m, r, i, j, k, ii, jj, p);
    }
    WrittenBack(r, data, m, low, high);
  }

  /** One round of the merging loop: takes the smaller head of the two halves (the left one
      on a tie), writes it at `k` and advances past it, keeping the loop's invariant. */
  method MergeRound<T>(data: seq<T>, aux: seq<Nullable<T>>, key: T -> int, low: int, mid: int, high: int,
                       ghost left: seq<T>, ghost right: seq<T>, ghost m: seq<T>,
                       r: seq<T>, i: int, j: int, k: int, ghost ii: nat, ghost jj: nat, ghost p: nat)
    returns (r': seq<T>, i': int, j': int, k': int, ghost ii': nat, ghost jj': nat, ghost p': nat)
    requires 0 <= low <= mid < high < |data| && high < |aux|
    requires forall t :: low <= t <= high ==> aux[t] == Value(data[t])
    requires left == data[low..mid + 1] && right == data[mid + 1..high + 1] && |m| == high + 1 - low
    requires low <= i <= mid + 1 && mid + 1 <= j <= high + 1 && k == i + j - mid - 1 && k <= high
    requires ii == i - low && jj == j - mid - 1 && p == k - low
    requires |r| == |data|
    requires forall t :: low <= t < k ==> r[t] == m[t - low]
    requires forall t :: 0 <= t < |r| && !(low <= t < k) ==> r[t] == data[t]
    requires MergeFrom(left, right, key, ii, jj) == m[p..]
    ensures low <= i' <= mid + 1 && mid + 1 <= j' <= high + 1 && k' == i' + j' - mid - 1 && k' == k + 1
    ensures ii' == i' - low && jj' == j' - mid - 1 && p' == k' - low
    ensures |r'| == |data|
    ensures forall t :: low <= t < k' ==> r'[t] == m[t - low]
    ensures forall t :: 0 <= t < |r'| && !(low <= t < k') ==> r'[t] == data[t]
    ensures MergeFrom(left, right, key, ii', jj') == m[p'..]
  {
    ReadHalves(data, aux, left, right, low, mid, high, i, j, ii, jj);
    var takeRight := i > mid || (j <= high && key(aux[j].v) < key(aux[i].v));
    var x := if takeRight then aux[j].v else aux[i].v;
    MergeStep(left, right, key, ii, jj, m, p, takeRight, x);
    WriteMerged(r, r[k := x], data, m, low, k, x);
    r' := r[k := x];
    if takeRight {
      i', j', ii', jj' := i, j + 1, ii, jj + 1;
    } else {
      i', j', ii', jj' := i + 1, j, ii + 1, jj;
    }
    k', p' := k + 1, p + 1;
  }

  /** Writing the merged value for position `k` extends the written prefix by one cell and
      keeps every cell outside it. */
  lemma WriteMerged<T>(r: seq<T>, r': seq<T>, data: seq<T>, m: seq<T>, low: int, k: int, x: T)
    requires 0 <= low <= k < |r| == |data| && k - low < |m| && m[k - low] == x && r' == r[k := x]
    requires forall t :: low <= t < k ==> r[t] == m[t - low]
    requires forall t :: 0 <= t < |r| && !(low <= t < k) ==> r[t] == data[t]
    ensures forall t :: low <= t < k + 1 ==> r'[t] == m[t - low]
    ensures forall t :: 0 <= t < |r'| && !(low <= t < k + 1) ==> r'[t] == data[t]
  {
  }

  /** A copy of `data` whose segment `[low, high]` holds `m` is `data` with `m` spliced in. */
  lemma WrittenBack<T>(r: seq<T>, data: seq<T>, m: seq<T>, low: int, high: int)
    requires 0 <= low <= high < |data| == |r| && |m| == high + 1 - low
    requires forall t :: low <= t < high + 1 ==> r[t] == m[t - low]
    requires forall t :: 0 <= t < |r| && !(low <= t < high + 1) ==> r[t] == data[t]
    ensures r == data[..low] + m + data[high + 1..]
  {
    assert forall t :: 0 <= t < |r| ==> r[t] == (data[..low] + m + data[high + 1..])[t];
  }

  /** What `merge` reads from `aux` at `i` and `j` is the next element of each half. */
  lemma ReadHalves<T>(data: seq<T>, aux: seq<Nullable<T>>, left: seq<T>, right: seq<T>,
                      low: int, mid: int, high: int, i: int, j: int, ii: nat, jj: nat)
    requires 0 <= low <= mid < high < |data| && high < |aux|
    requires forall k :: low <= k <= high ==> aux[k] == Value(data[k])
    requires left == data[low..mid + 1] && right == data[mid + 1..high + 1]
    requires low <= i <= mid + 1 && mid + 1 <= j <= high + 1 && ii == i - low && jj == j - mid - 1
    ensures ii <= |left| && jj <= |right|
    ensures i > mid <==> ii == |left|
    ensures j > high <==> jj == |right|
    ensures i <= mid ==> aux[i] == Value(left[ii])
    ensures j <= high ==> aux[j] == Value(right[jj])
  {
  }

  /** One step of the positional merge, as `merge` takes it: from `b` exactly when `a` is
      used up or `b`'s head has the strictly smaller key. */
  lemma MergeFromUnfold<T>(a: seq<T>, b: seq<T>, key: T -> int, i: nat, j: nat, takeRight: bool)
    requires i <= |a| && j <= |b| && (i < |a| || j < |b|)
    requires takeRight <==> i == |a| || (j < |b| && key(b[j]) < key(a[i]))
    ensures takeRight ==> j < |b| && MergeFrom(a, b, key, i, j) == [b[j]] + MergeFrom(a, b, key, i, j + 1)
    ensures !takeRight ==> i < |a| && MergeFrom(a, b, key, i, j) == [a[i]] + MergeFrom(a, b, key, i + 1, j)
  {
    if i == |a| {
      assert b[j..] == [b[j]] + b[j + 1..];
    } else if j == |b| {
      assert a[i..] == [a[i]] + a[i + 1..];
    }
  }

  /** Taking the next value of the positional merge: when what is left of it is `m[p..]`,
      the value taken is `m[p]` and what is left afterwards is `m[p + 1..]`. */
  lemma MergeStep<T>(a: seq<T>, b: seq<T>, key: T -> int, i: nat, j: nat, m: seq<T>, p: nat, takeRight: bool, x: T)
    requires i <= |a| && j <= |b| && (i < |a| || j < |b|)
    requires p <= |m| && MergeFrom(a, b, key, i, j) == m[p..]
    requires takeRight <==> i == |a| || (j < |b| && key(b[j]) < key(a[i]))
    requires x == if takeRight then b[j] else a[i]
    ensures p < |m| && m[p] == x
    ensures takeRight ==> j < |b| && MergeFrom(a, b, key, i, j + 1) == m[p + 1..]
    ensures !takeRight ==> i < |a| && MergeFrom(a, b, key, i + 1, j) == m[p + 1..]
  {
    MergeFromUnfold(a, b, key, i, j, takeRight);
    var rest := if takeRight then MergeFrom(a, b, key, i, j + 1) else MergeFrom(a, b, key, i + 1, j);
    assert m[p..] == [x] + rest;
    assert m[p..][1..] == m[p + 1..];
  }

  /** What the merged sequence means: a rearrangement of the segment, and a stable sort
      of it when both halves were sorted. */
  lemma MergeResult<T>(data: seq<T>, r: seq<T>, key: T -> int, low: int, mid: int, high: int)
    requires 0 <= low <= mid < high < |data|
    requires r == data[..low] + MergeSeq(data[low..mid + 1], data[mid + 1..high + 1], key) + data[high + 1..]
    ensures Permutes(data, r, low, high + 1)
    ensures SortedBetween(data, key, low, mid + 1) && SortedBetween(data, key, mid + 1, high + 1) ==>
      StablySortsBetween(data, r, key, low, high + 1)
  {
    if SortedBetween(data, key, low, mid + 1) && SortedBetween(data, key, mid + 1, high + 1) {
      MergeStablySorts(data, r, key, low, mid, high);
    } else {
      var left, right := data[low..mid + 1], data[mid + 1..high + 1];
      SpliceSegment(data, r, left, right, MergeSeq(left, right, key), low, mid, high);
      MergePermutes(left, right, key);
    }
  }

  /** Putting `m` in place of the segment `[low, high]` of `a`, which is `left` followed by
      `right`, changes nothing outside it. */
  lemma SpliceSegment<T>(a: seq<T>, r: seq<T>, left: seq<T>, right: seq<T>, m: seq<T>, low: int, mid: int, high: int)
    requires 0 <= low <= mid < high < |a|
    requires left == a[low..mid + 1] && right == a[mid + 1..high + 1] && |m| == high + 1 - low
    requires r == a[..low] + m + a[high + 1..]
    ensures SameOutside(a, r, low, high + 1)
    ensures r[low..high + 1] == m && a[low..high + 1] == left + right
  {
  }

  /** The merge of two sorted sequences is a stable sort of their concatenation. */
  lemma MergeSeqStablySorts<T>(left: seq<T>, right: seq<T>, key: T -> int)
    requires SortedBetween(left, key, 0, |left|) && SortedBetween(right, key, 0, |right|)
    ensures SortedBetween(MergeSeq(left, right, key), key, 0, |left| + |right|)
    ensures multiset(MergeSeq(left, right, key)) == multiset(left + right)
    ensures forall v :: WithKey(MergeSeq(left, right, key), key, v) == WithKey(left + right, key, v)
  {
    MergeSorted(left, right, key);
    MergePermutes(left, right, key);
    forall v
      ensures WithKey(MergeSeq(left, right, key), key, v) == WithKey(left + right, key, v)
    {
      MergeStable(left, right, key, v);
      WithKeyAppend(left, right, key, v);
    }
  }

  /** A merge of the two sorted halves of `[low, high]` stably sorts it. */
  lemma MergeStablySorts<T>(a: seq<T>, r: seq<T>, key: T -> int, low: int, mid: int, high: int)
    requires 0 <= low <= mid < high < |a|
    requires SortedBetween(a, key, low, mid + 1) && SortedBetween(a, key, mid + 1, high + 1)
    requires r == a[..low] + MergeSeq(a[low..mid + 1], a[mid + 1..high + 1], key) + a[high + 1..]
    ensures StablySortsBetween(a, r, key, low, high + 1)
  {
    var left, right := a[low..mid + 1], a[mid + 1..high + 1];
    var m := MergeSeq(left, right, key);
    SpliceSegment(a, r, left, right, m, low, mid, high);
    assert SortedBetween(left, key, 0, |left|) by {
      assert forall t :: 0 <= t < |left| ==> left[t] == a[low + t];
    }
    assert SortedBetween(right, key, 0, |right|) by {
      assert forall t :: 0 <= t < |right| ==> right[t] == a[mid + 1 + t];
    }
    MergeSeqStablySorts(left, right, key);
    assert SortedBetween(r, key, low, high + 1) by {
      assert forall t :: low <= t <= high ==> r[t] == m[t - low];
    }
  }

  /** Sorting both halves one after the other and merging them stably sorts the whole
      segment. */
  lemma MergeAfterHalves<T>(data: seq<T>, r1: seq<T>, r2: seq<T>, r: seq<T>, key: T -> int, low: int, mid: int, high: int)
    requires 0 <= low <= mid < high < |data|
    requires StablySortsBetween(data, r1, key, low, mid + 1)
    requires StablySortsBetween(r1, r2, key, mid + 1, high + 1)
    requires SortedBetween(r2, key, low, mid + 1) && SortedBetween(r2, key, mid + 1, high + 1) ==>
      StablySortsBetween(r2, r, key, low, high + 1)
    ensures StablySortsBetween(data, r, key, low, high + 1)
  {
    HalvesSorted(data, r1, r2, key, low, mid, high);
    StablyPermutesTrans(data, r2, r, key, low, high + 1);
  }

  /** After both recursive calls each half is sorted and the segment is a stable
      rearrangement of the original. */
  lemma HalvesSorted<T>(data: seq<T>, r1: seq<T>, r2: seq<T>, key: T -> int, low: int, mid: int, high: int)
    requires 0 <= low <= mid < high < |data|
    requires StablySortsBetween(data, r1, key, low, mid + 1)
    requires StablySortsBetween(r1, r2, key, mid + 1, high + 1)
    ensures SortedBetween(r2, key, low, mid + 1) && SortedBetween(r2, key, mid + 1, high + 1)
    ensures StablyPermutes(data, r2, key, low, high + 1)
  {
    SortedBeforeKept(r1, r2, key, low, mid + 1, high + 1);
    StablyPermutesJoin(data, r1, r2, key, low, mid + 1, high + 1);
  }

  /** The private recursive `sort(data, aux, low, high)`. */
  method SortSegment<T>(data: seq<T>, aux: seq<Nullable<T>>, key: T -> int, low: int, high: int)
    returns (r: seq<T>, aux': seq<Nullable<T>>)
    requires low >= high || (0 <= low && high < |data| && high < |aux|)
    ensures |aux'| == |aux|
    ensures 0 <= low <= high < |data| ==> StablySortsBetween(data, r, key, low, high + 1)
    ensures low >= high ==> r == data
    decreases high - low
  {
    if high <= low + SortThreshold {
      r := InsertionSort.SortRange(data, key, low, high);
      aux' := aux;
      return;
    }
    var mid := low + (high - low) / 2;
    var r1, aux1 := SortSegment(data, aux, key, low, mid);
    assert |r1| == |data|;
    var r2, aux2 := SortSegment(r1, aux1, key, mid + 1, high);
    assert |r2| == |data|;
    r, aux' := Merge(r2, aux2, key, low, mid, high);
    MergeAfterHalves(data, r1, r2, r, key, low, mid, high);
  }

  /** The public `sort(data, low, high)`: `aux` is `Arrays.copyOf(data, high + 1)`, padded
      with nulls beyond the array; `high < -1` would make that copy throw. */
  method SortRange<T>(data: seq<T>, key: T -> int, low: int, high: int) returns (r: seq<T>)
    requires high >= -1
    requires low >= high || (0 <= low && high < |data|)
    ensures 0 <= low <= high < |data| ==> StablySortsBetween(data, r, key, low, high + 1)
    ensures low >= high ==> r == data
  {
    var aux := seq(high + 1, k requires 0 <= k < high + 1 => if k < |data| then Value(data[k]) else Null);
    var auxAfter;
    r, auxAfter := SortSegment(data, aux, key, low, high);
  }

  /** `sort(data)`: sorts the whole array stably; an empty array is left as it is. */
  method Sort<T>(data: seq<T>, key: T -> int) returns (r: seq<T>)
    ensures StablySortsBetween(data, r, key, 0, |data|)
  {
    r := SortRange(data, key, 0, |data| - 1);
  }
}
