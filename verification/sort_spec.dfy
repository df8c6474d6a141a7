/** What a comparison sort of an array segment promises, stated over sequences.

    Elements are compared through `key: T -> int`: `a.compareTo(b) < 0` is
    `key(a) < key(b)`, which makes the order a total preorder (a lawful
    `Comparable`). Elements with equal keys may still differ, which is what makes
    stability a property worth stating. Segments are half-open `[lo, hi)`.
 */
module SortSpec {

  /** Integers ordered by their value: the key of `Integer.compareTo`. */
  function IntKey(x: int): int {
    x
  }

  /** `s[lo..hi)` is non-decreasing by key. */
  predicate SortedBetween<T>(s: seq<T>, key: T -> int, lo: int, hi: int)
    requires 0 <= lo <= hi <= |s|
  {
    forall a, b :: lo <= a < b < hi ==> key(s[a]) <= key(s[b])
  }

  /** Every element is at least its predecessor: the check `isSorted` performs. */
  predicate AdjacentSorted<T>(s: seq<T>, key: T -> int) {
    forall k :: 0 < k < |s| ==> key(s[k - 1]) <= key(s[k])
  }

  /** `b` has the length of `a` and agrees with it outside `[lo, hi)`. */
  ghost predicate SameOutside<T>(a: seq<T>, b: seq<T>, lo: int, hi: int) {
    |a| == |b| && forall k :: 0 <= k < |a| && !(lo <= k < hi) ==> a[k] == b[k]
  }

  /** `b` rearranges `a[lo..hi)` and leaves the rest of `a` alone. */
  ghost predicate Permutes<T>(a: seq<T>, b: seq<T>, lo: int, hi: int) {
    && 0 <= lo <= hi <= |a|
    && SameOutside(a, b, lo, hi)
    && multiset(a[lo..hi]) == multiset(b[lo..hi])
  }

  /** The elements of `s` whose key is `v`, in their order in `s`. */
  function WithKey<T>(s: seq<T>, key: T -> int, v: int): (r: seq<T>)
    ensures |r| <= |s|
    decreases |s|
  {
    if s == [] then []
    else (if key(s[0]) == v then [s[0]] else []) + WithKey(s[1..], key, v)
  }

  /** `b` permutes `a[lo..hi)` keeping elements with equal keys in their original
      relative order. */
  ghost predicate StablyPermutes<T>(a: seq<T>, b: seq<T>, key: T -> int, lo: int, hi: int) {
    && Permutes(a, b, lo, hi)
    && forall v :: WithKey(b[lo..hi], key, v) == WithKey(a[lo..hi], key, v)
  }

  /** `b` is `a` with `[lo, hi)` sorted by key. */
  ghost predicate SortsBetween<T>(a: seq<T>, b: seq<T>, key: T -> int, lo: int, hi: int) {
    Permutes(a, b, lo, hi) && SortedBetween(b, key, lo, hi)
  }

  /** `b` is `a` with `[lo, hi)` sorted by key, stably. */
  ghost predicate StablySortsBetween<T>(a: seq<T>, b: seq<T>, key: T -> int, lo: int, hi: int) {
    StablyPermutes(a, b, key, lo, hi) && SortedBetween(b, key, lo, hi)
  }

  /** Selecting by key distributes over concatenation. */
  lemma {:induction false} WithKeyAppend<T>(s: seq<T>, t: seq<T>, key: T -> int, v: int)
    ensures WithKey(s + t, key, v) == WithKey(s, key, v) + WithKey(t, key, v)
    decreases |s|
  {
    if s != [] {
      assert (s + t)[0] == s[0];
      assert (s + t)[1..] == s[1..] + t;
      WithKeyAppend(s[1..], t, key, v);
      var h := if key(s[0]) == v then [s[0]] else [];
      assert WithKey(s + t, key, v) == h + (WithKey(s[1..], key, v) + WithKey(t, key, v));
      assert WithKey(s, key, v) == h + WithKey(s[1..], key, v);
    } else {
      assert s + t == t;
    }
  }

  /** Adjacent-pair order implies order between every pair: the two sortedness notions
      coincide. */
  lemma {:induction false} AdjacentSortedIsSorted<T>(s: seq<T>, key: T -> int)
    ensures AdjacentSorted(s, key) <==> SortedBetween(s, key, 0, |s|)
  {
    if AdjacentSorted(s, key) {
      forall a, b | 0 <= a < b < |s|
        ensures key(s[a]) <= key(s[b])
      {
        var c := a;
        while c < b
          invariant a <= c <= b
          invariant key(s[a]) <= key(s[c])
        {
          c := c + 1;
        }
      }
    }
  }

  /** A segment of at most one element is sorted. */
  lemma ShortSegmentSorted<T>(s: seq<T>, key: T -> int, lo: int, hi: int)
    requires 0 <= lo <= hi <= |s| && hi <= lo + 1
    ensures SortedBetween(s, key, lo, hi)
  {
  }

  /** Stable permutation and permutation are transitive. */
  lemma StablyPermutesTrans<T>(a: seq<T>, b: seq<T>, c: seq<T>, key: T -> int, lo: int, hi: int)
    requires StablyPermutes(a, b, key, lo, hi) && StablyPermutes(b, c, key, lo, hi)
    ensures StablyPermutes(a, c, key, lo, hi)
  {
  }

  lemma PermutesTrans<T>(a: seq<T>, b: seq<T>, c: seq<T>, lo: int, hi: int)
    requires Permutes(a, b, lo, hi) && Permutes(b, c, lo, hi)
    ensures Permutes(a, c, lo, hi)
  {
  }

  /** A stable permutation of `[lo, hi)` that leaves `hi` alone is one of `[lo, hi + 1)`
      too. */
  lemma StablyPermutesExtend<T>(a: seq<T>, b: seq<T>, key: T -> int, lo: int, hi: int)
    requires StablyPermutes(a, b, key, lo, hi) && hi < |a|
    ensures StablyPermutes(a, b, key, lo, hi + 1)
  {
    var a1, b1 := a[lo..hi + 1], b[lo..hi + 1];
    assert a1 == a[lo..hi] + [a[hi]];
    assert b1 == b[lo..hi] + [b[hi]];
    forall v
      ensures WithKey(b1, key, v) == WithKey(a1, key, v)
    {
      WithKeyAppend(a[lo..hi], [a[hi]], key, v);
      WithKeyAppend(b[lo..hi], [b[hi]], key, v);
    }
  }

  /** Permuting two adjacent segments separately permutes their union. */
  lemma PermutesJoin<T>(a: seq<T>, b: seq<T>, c: seq<T>, lo: int, mid: int, hi: int)
    requires lo <= mid <= hi
    requires Permutes(a, b, lo, mid) && Permutes(b, c, mid, hi)
    ensures Permutes(a, c, lo, hi)
  {
    assert a[lo..hi] == a[lo..mid] + a[mid..hi];
    assert b[lo..hi] == b[lo..mid] + b[mid..hi];
    assert c[lo..hi] == c[lo..mid] + c[mid..hi];
    assert c[lo..mid] == b[lo..mid];
    assert a[mid..hi] == b[mid..hi];
  }

  /** Stably permuting two adjacent segments separately stably permutes their union. */
  lemma StablyPermutesJoin<T>(a: seq<T>, b: seq<T>, c: seq<T>, key: T -> int, lo: int, mid: int, hi: int)
    requires lo <= mid <= hi
    requires StablyPermutes(a, b, key, lo, mid) && StablyPermutes(b, c, key, mid, hi)
    ensures StablyPermutes(a, c, key, lo, hi)
  {
    PermutesJoin(a, b, c, lo, mid, hi);
    assert a[lo..hi] == a[lo..mid] + a[mid..hi];
    assert c[lo..hi] == c[lo..mid] + c[mid..hi];
    assert c[lo..mid] == b[lo..mid];
    assert a[mid..hi] == b[mid..hi];
    forall v
      ensures WithKey(c[lo..hi], key, v) == WithKey(a[lo..hi], key, v)
    {
      WithKeyAppend(a[lo..mid], a[mid..hi], key, v);
      WithKeyAppend(c[lo..mid], c[mid..hi], key, v);
    }
  }

  /** Sorting one segment leaves an already sorted segment that lies before it sorted. */
  lemma SortedBeforeKept<T>(a: seq<T>, b: seq<T>, key: T -> int, lo: int, mid: int, hi: int)
    requires 0 <= lo <= mid <= hi <= |a| && SortedBetween(a, key, lo, mid)
    requires Permutes(a, b, mid, hi)
    ensures SortedBetween(b, key, lo, mid)
  {
    assert forall k :: lo <= k < mid ==> b[k] == a[k];
  }

  /** A key bound on every element of a segment survives any permutation of it. */
  lemma BoundSurvivesPermutation<T>(a: seq<T>, b: seq<T>, key: T -> int, lo: int, hi: int, bound: int, below: bool)
    requires Permutes(a, b, lo, hi)
    requires forall k :: lo <= k < hi ==> if below then key(a[k]) <= bound else key(a[k]) >= bound
    ensures forall k :: lo <= k < hi ==> if below then key(b[k]) <= bound else key(b[k]) >= bound
  {
    forall k | lo <= k < hi
      ensures if below then key(b[k]) <= bound else key(b[k]) >= bound
    {
      assert b[k] == b[lo..hi][k - lo];
      assert b[k] in multiset(a[lo..hi]);
      var k' :| lo <= k' < hi && a[k'] == b[k] by {
        assert b[k] in a[lo..hi];
      }
    }
  }
}
