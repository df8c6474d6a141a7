/** The node arena behind the doubly linked list and the chains of nodes in it.

    Java objects live in a heap and refer to each other; here the heap is a
    `seq<Node<T>>` and a reference is an index into it. A chain is the sequence of
    addresses met by following `right` links, and `Linked` is the structural
    invariant of a doubly linked list: the first node has no left neighbour, the
    last has no right neighbour, and consecutive nodes point at each other.
 */
module NodeChain {
  import opened Wrappers
  import opened BinaryNode

  type Heap<T> = seq<Node<T>>

  /** `link` is null or the address of a node of `h`. */
  predicate InHeap<T>(h: Heap<T>, link: Link) {
    link.Null? || link.v < |h|
  }

  /** Every link stored in the arena points into the arena, and every stored value is
      non-null (values enter the list only through the null-rejecting factories). */
  predicate WellFormed<T>(h: Heap<T>) {
    forall a :: 0 <= a < |h| ==> InHeap(h, h[a].left) && InHeap(h, h[a].right) && h[a].value.Value?
  }

  /** The addresses met by following at most `n` right links, starting at `start`. */
  function Chain<T>(h: Heap<T>, start: Link, n: nat): (ch: seq<nat>)
    ensures |ch| <= n
    ensures forall k :: 0 <= k < |ch| ==> ch[k] < |h|
    decreases n
  {
    if n == 0 || start.Null? || start.v >= |h| then []
    else [start.v] + Chain(h, h[start.v].right, n - 1)
  }

  /** `ch` is a doubly linked chain of distinct nodes from `root` to `tail`. */
  predicate Linked<T>(h: Heap<T>, root: Link, tail: Link, ch: seq<nat>) {
    && (forall k :: 0 <= k < |ch| ==> ch[k] < |h|)
    && (forall i, j :: 0 <= i < j < |ch| ==> ch[i] != ch[j])
    && (|ch| == 0 ==> root.Null? && tail.Null?)
    && (|ch| > 0 ==>
          && root == Value(ch[0]) && tail == Value(ch[|ch| - 1])
          && h[ch[0]].left.Null? && h[ch[|ch| - 1]].right.Null?)
    && (forall k :: 0 <= k < |ch| - 1 ==> h[ch[k]].right == Value(ch[k + 1]))
    && (forall k :: 0 < k < |ch| ==> h[ch[k]].left == Value(ch[k - 1]))
  }

  /** The values held by the nodes of a chain, in chain order. */
  function ValuesOf<T>(h: Heap<T>, ch: seq<nat>): (s: seq<T>)
    requires WellFormed(h)
    requires forall k :: 0 <= k < |ch| ==> ch[k] < |h|
    ensures |s| == |ch|
    ensures forall k :: 0 <= k < |ch| ==> Value(s[k]) == h[ch[k]].value
  {
    seq(|ch|, k requires 0 <= k < |ch| => h[ch[k]].value.v)
  }

  /** `n` iterations of `iterator = iterator.getRight()`; stepping off a null reference
      throws. */
  function HopRight<T>(h: Heap<T>, from: Link, n: nat): (r: Result<Link>)
    requires WellFormed(h) && InHeap(h, from)
    ensures r.Ok? ==> InHeap(h, r.value)
    ensures r.Err? ==> r.error == NullPointer
    decreases n
  {
    if n == 0 then Ok(from)
    else if from.Null? then Err(NullPointer)
    else HopRight(h, h[from.v].right, n - 1)
  }

  /** `n` iterations of `iterator = iterator.getLeft()`. */
  function HopLeft<T>(h: Heap<T>, from: Link, n: nat): (r: Result<Link>)
    requires WellFormed(h) && InHeap(h, from)
    ensures r.Ok? ==> InHeap(h, r.value)
    ensures r.Err? ==> r.error == NullPointer
    decreases n
  {
    if n == 0 then Ok(from)
    else if from.Null? then Err(NullPointer)
    else HopLeft(h, h[from.v].left, n - 1)
  }

  /** Walking the right links of a linked chain from its `k`-th node visits exactly the
      rest of the chain. */
  lemma {:induction false} ChainSuffix<T>(h: Heap<T>, root: Link, tail: Link, ch: seq<nat>, k: nat)
    requires Linked(h, root, tail, ch)
    requires k < |ch|
    ensures Chain(h, Value(ch[k]), |ch| - k) == ch[k..]
    decreases |ch| - k
  {
    if k == |ch| - 1 {
      assert Chain(h, h[ch[k]].right, 0) == [];
    } else {
      ChainSuffix(h, root, tail, ch, k + 1);
      assert h[ch[k]].right == Value(ch[k + 1]);
      assert ch[k..] == [ch[k]] + ch[k + 1..];
    }
  }

  /** A linked chain is the walk of its own length from the root: the invariant pins the
      chain down uniquely. */
  lemma ChainOfLinked<T>(h: Heap<T>, root: Link, tail: Link, ch: seq<nat>)
    requires Linked(h, root, tail, ch)
    ensures Chain(h, root, |ch|) == ch
  {
    if |ch| > 0 {
      ChainSuffix(h, root, tail, ch, 0);
      assert ch[0..] == ch;
    }
  }

  /** From the `k`-th node, `m` right hops reach the `(k + m)`-th node. */
  lemma {:induction false} HopRightAlong<T>(h: Heap<T>, root: Link, tail: Link, ch: seq<nat>, k: nat, m: nat)
    requires WellFormed(h) && Linked(h, root, tail, ch)
    requires k + m < |ch|
    ensures HopRight(h, Value(ch[k]), m) == Ok(Value(ch[k + m]))
    decreases m
  {
    if m > 0 {
      assert h[ch[k]].right == Value(ch[k + 1]);
      HopRightAlong(h, root, tail, ch, k + 1, m - 1);
    }
  }

  /** From the `k`-th node, `m` left hops reach the `(k - m)`-th node. */
  lemma {:induction false} HopLeftAlong<T>(h: Heap<T>, root: Link, tail: Link, ch: seq<nat>, k: nat, m: nat)
    requires WellFormed(h) && Linked(h, root, tail, ch)
    requires m <= k < |ch|
    ensures HopLeft(h, Value(ch[k]), m) == Ok(Value(ch[k - m]))
    decreases m
  {
    if m > 0 {
      assert h[ch[k]].left == Value(ch[k - 1]);
      HopLeftAlong(h, root, tail, ch, k - 1, m - 1);
    }
  }

  /** Distinct addresses into an arena of `n` nodes number at most `n`: a chain of
      distinct nodes is never longer than the arena. */
  lemma {:induction false} DistinctBelow(ch: seq<nat>, n: nat)
    requires forall k :: 0 <= k < |ch| ==> ch[k] < n
    requires forall i, j :: 0 <= i < j < |ch| ==> ch[i] != ch[j]
    ensures |ch| <= n
    decreases n
  {
    if |ch| > 0 {
      // Drop the last address; an occurrence of `n - 1` among the others takes its place.
      var x := ch[|ch| - 1];
      var rest := seq(|ch| - 1, i requires 0 <= i < |ch| - 1 => if ch[i] == n - 1 then x else ch[i]);
      forall k | 0 <= k < |rest|
        ensures rest[k] < n - 1
      {
        assert ch[k] != x;
      }
      forall i, j | 0 <= i < j < |rest|
        ensures rest[i] != rest[j]
      {
        assert ch[i] != x && ch[j] != x;
      }
      DistinctBelow(rest, n - 1);
    }
  }
}
