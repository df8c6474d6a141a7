/** The array helpers the sorts share: `swap`, the `isSorted` check and `shuffle`. Arrays
    are sequences; the methods return the array as it is after the call. */
module Utilities {
  import opened Wrappers
  import opened SortSpec

  /** `swap(data, i, j)`: exchanges the two cells when both indices are in bounds and
      otherwise leaves the array as it is. */
  function Swap<T>(data: seq<T>, i: int, j: int): (r: seq<T>)
    ensures |r| == |data|
    ensures 0 <= i < |data| && 0 <= j < |data| ==>
      && r[i] == data[j] && r[j] == data[i]
      && forall k :: 0 <= k < |data| && k != i && k != j ==> r[k] == data[k]
    ensures !(0 <= i < |data| && 0 <= j < |data|) ==> r == data
  {
    if 0 <= i < |data| && 0 <= j < |data| then data[i := data[j]][j := data[i]] else data
  }

  /** Exchanging two cells of a sequence keeps its multiset. */
  lemma SwapKeepsMultiset<T>(s: seq<T>, a: int, b: int)
    requires 0 <= a < |s| && 0 <= b < |s|
    ensures multiset(s[a := s[b]][b := s[a]]) == multiset(s)
  {
    var x, y := s[a], s[b];
    var t := s[a := y];
    assert multiset(t) == multiset(s) - multiset{x} + multiset{y};
    assert multiset(t[b := x]) == multiset(t) - multiset{t[b]} + multiset{x};
  }

  /** A swap inside `[lo, hi)` permutes that segment; swapping a cell with itself changes
      nothing; and swapping twice restores the array. */
  lemma SwapPermutes<T>(data: seq<T>, i: int, j: int, lo: int, hi: int)
    requires 0 <= lo <= i < hi <= |data| && lo <= j < hi
    ensures Permutes(data, Swap(data, i, j), lo, hi)
    ensures i == j ==> Swap(data, i, j) == data
    ensures Swap(Swap(data, i, j), i, j) == data
  {
    SwapSegment(data, i, j, lo, hi);
    SwapTwice(data, i, j);
  }

  /** The segment `[lo, hi)` after the swap is the segment before it with the two cells
      exchanged, so it has the same multiset. */
  lemma SwapSegment<T>(data: seq<T>, i: int, j: int, lo: int, hi: int)
    requires 0 <= lo <= i < hi <= |data| && lo <= j < hi
    ensures multiset(data[lo..hi]) == multiset(Swap(data, i, j)[lo..hi])
  {
    var s, t := data[lo..hi], Swap(data, i, j)[lo..hi];
    assert t == s[i - lo := s[j - lo]][j - lo := s[i - lo]];
    SwapKeepsMultiset(s, i - lo, j - lo);
  }

  /** Swapping the same two cells twice, or one cell with itself, restores the array. */
  lemma SwapTwice<T>(data: seq<T>, i: int, j: int)
    requires 0 <= i < |data| && 0 <= j < |data|
    ensures Swap(Swap(data, i, j), i, j) == data
    ensures i == j ==> Swap(data, i, j) == data
  {
    var r := Swap(data, i, j);
    var back := Swap(r, i, j);
    assert forall k :: 0 <= k < |data| ==> back[k] == data[k];
    if i == j {
      assert forall k :: 0 <= k < |data| ==> r[k] == data[k];
    }
  }

  /** A swap inside `[lo, hi)` keeps a rearrangement of `[lo, hi)` one. */
  lemma SwapKeepsPermutation<T>(orig: seq<T>, data: seq<T>, i: int, j: int, lo: int, hi: int)
    requires Permutes(orig, data, lo, hi) && lo <= i < hi && lo <= j < hi
    ensures Permutes(orig, Swap(data, i, j), lo, hi)
  {
    SwapPermutes(data, i, j, lo, hi);
    PermutesTrans(orig, data, Swap(data, i, j), lo, hi);
  }

  /** `isSorted(data)`: `false` for a null array and, as written, for an array of length 1;
      otherwise whether no element is less than its predecessor. */
  method IsSorted<T>(data: Nullable<seq<T>>, key: T -> int) returns (b: bool)
    ensures b <==> data.Value? && |data.v| != 1 && SortedBetween(data.v, key, 0, |data.v|)
  {
    if data.Null? || |data.v| == 1 {
      return false;
    }
    var s := data.v;
    AdjacentSortedIsSorted(s, key);
    var i := 1;
    while i < |s|
      invariant 1 <= i <= |s| || |s| == 0
      invariant forall k :: 0 < k < i && k < |s| ==> key(s[k - 1]) <= key(s[k])
    {
      if key(s[i]) < key(s[i - 1]) {
        return false;
      }
      i := i + 1;
    }
    return true;
  }

  /** `shuffle(data)`: for `i` from the last index down to 1, swap cell `i` with cell
      `draw(i)`, where `draw(i)` stands for the random index drawn at step `i`. Whatever
      the draws, the result is a permutation. */
  method Shuffle<T>(data: seq<T>, draw: int -> int) returns (r: seq<T>)
    ensures Permutes(data, r, 0, |data|)
  {
    r := data;
    var i := |data| - 1;
    while i > 0
      invariant Permutes(data, r, 0, |data|)
    {
      var j := draw(i);
      if 0 <= j < |r| {
        SwapPermutes(r, i, j, 0, |r|);
      }
      r := Swap(r, i, j);
      i := i - 1;
    }
  }
}
