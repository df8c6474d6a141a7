/** `DoublyLinkedList<T>`: a positional list built from `BinaryNode`s, with a `root`
    (first node), a `tail` (last node) and a `size` counter.

    Each Java method that mutates the list is modelled as a function from the
    list state before the call to an `Outcome`: the value returned or the
    exception thrown, together with the list state after the call. Java mutates
    nodes in place; here the arena `heap` is updated and new nodes are appended
    to it (unlinked nodes stay in the arena, unreachable).

    The operations are defined on every `Closed` state (all references point
    into the arena), as the code is, so that what the code does in a state the
    invariant `Valid` rules out can be stated too. The observers walk links until
    null as the Java loops do; they differ from Java only on a cycle of right links,
    where the Java loops never end and the model stops after as many nodes as the
    arena holds.

    Values enter the arena through the node factories, which reject null; a null
    argument to `add` or `insert` is modelled by `AddNullable` and `InsertNullable`.
 */
module DoublyLinkedList {
  import opened Wrappers
  import opened BinaryNode
  import JavaInt
  import opened NodeChain
  import LinkedList

  datatype ListState<T> = ListState(heap: Heap<T>, root: Link, tail: Link, size: int)

  /** What a mutating call produced: its result (or exception) and the state after it. */
  datatype Outcome<T, R> = Outcome(result: Result<R>, list: ListState<T>)

  /** Every reference of the state points into the arena and the size is not negative. */
  predicate Closed<T>(l: ListState<T>) {
    WellFormed(l.heap) && InHeap(l.heap, l.root) && InHeap(l.heap, l.tail) && l.size >= 0
  }

  /** The nodes met by `size` right hops from the root. */
  function ListChain<T>(l: ListState<T>): seq<nat>
    requires l.size >= 0
  {
    Chain(l.heap, l.root, l.size)
  }

  /** The class invariant: following `right` from `root` meets exactly `size` distinct
      nodes, ending at `tail`, with `left` the inverse of `right` along the way, a root
      without a left neighbour and a tail without a right neighbour. */
  predicate Valid<T>(l: ListState<T>) {
    Closed(l) && |ListChain(l)| == l.size && Linked(l.heap, l.root, l.tail, ListChain(l))
  }

  /** The abstract contents of a valid list: its values from root to tail. */
  function Contents<T>(l: ListState<T>): (s: seq<T>)
    requires Valid(l)
    ensures |s| == l.size
  {
    ValuesOf(l.heap, ListChain(l))
  }

  /** A freshly constructed list: no root, no tail, size 0. */
  function New<T>(): (l: ListState<T>)
    ensures Valid(l) && Contents(l) == [] && l.size == 0
  {
    ListState([], Null, Null, 0)
  }

  /** A closed state whose references form a linked chain of `size` nodes is valid, and
      that chain is its chain. */
  lemma ValidFromLinked<T>(l: ListState<T>, ch: seq<nat>)
    requires Closed(l) && |ch| == l.size && Linked(l.heap, l.root, l.tail, ch)
    ensures Valid(l) && ListChain(l) == ch
    ensures Contents(l) == ValuesOf(l.heap, ch)
  {
    ChainOfLinked(l.heap, l.root, l.tail, ch);
  }

  /** A valid list never holds more nodes than its arena. */
  lemma ValidSizeBound<T>(l: ListState<T>)
    requires Valid(l)
    ensures l.size <= |l.heap|
  {
    DistinctBelow(ListChain(l), |l.heap|);
  }

  /** `getNode(index)`: walk `index` right hops from the root when `index < size / 2`,
      otherwise `size - 1 - index` left hops from the tail. */
  function GetNode<T>(l: ListState<T>, index: nat): (r: Result<Link>)
    requires Closed(l)
    ensures r.Ok? ==> InHeap(l.heap, r.value)
  {
    if index < l.size / 2 then HopRight(l.heap, l.root, index)
    else HopLeft(l.heap, l.tail, if l.size > index + 1 then l.size - index - 1 else 0)
  }

  /** `add(t)`: an empty list (no tail) gets the new node as both root and tail; otherwise
      the tail is linked to a new node that becomes the tail. */
  function Add<T>(l: ListState<T>, t: T): (r: ListState<T>)
    requires Closed(l)
    ensures Closed(r) && r.size == l.size + 1
    ensures |r.heap| == |l.heap| + 1 && r.tail == Value(|l.heap|) && r.heap[|l.heap|].value == Value(t)
    ensures l.tail.Value? ==> r.root == l.root
  {
    var a := |l.heap|;
    if l.tail.Null? then
      ListState(l.heap + [ValueOf(Value(t)).value], Value(a), Value(a), l.size + 1)
    else
      var h := l.heap[l.tail.v := SetRight(l.heap[l.tail.v], Value(a))];
      ListState(h + [WithLeft(Value(t), l.tail).value], l.root, Value(a), l.size + 1)
  }

  /** `insert(index, t)` as written. Index 0 links a new root in front of the old root,
      which it dereferences even when the list is empty; index `size` delegates to
      `add`; any other index splices a new node in front of `getNode(index)`. */
  function InsertAsWritten<T>(l: ListState<T>, index: int, t: T): (r: Outcome<T, ()>)
    requires Closed(l)
    ensures Closed(r.list)
    ensures index < 0 || index > l.size ==> r == Outcome(Err(IndexOutOfBounds(index, l.size)), l)
    ensures r.list.size == if r.result.Ok? then l.size + 1 else l.size
  {
    if index < 0 || index > l.size then
      Outcome(Err(IndexOutOfBounds(index, l.size)), l)
    else if index == 0 then
      var a := |l.heap|;
      var h1 := l.heap + [WithRight(Value(t), l.root).value];
      if l.root.Null? then
        // `tmp.setLeft(root)` with `tmp == null`: the root was already replaced
        Outcome(Err(NullPointer), l.(heap := h1, root := Value(a)))
      else
        var h2 := h1[l.root.v := SetLeft(h1[l.root.v], Value(a))];
        Outcome(Ok(()), l.(heap := h2, root := Value(a), size := l.size + 1))
    else if index == l.size then
      Outcome(Ok(()), Add(l, t))
    else
      match GetNode(l, index)
      case Err(e) => Outcome(Err(e), l)
      case Ok(node) =>
        if node.Null? then Outcome(Err(NullPointer), l)
        else
          var a := |l.heap|;
          var tmp := l.heap[node.v].left;
          var h1 := l.heap + [From(Value(t), tmp, node).value];
          var h2 := h1[node.v := SetLeft(h1[node.v], Value(a))];
          if tmp.Null? then Outcome(Err(NullPointer), l.(heap := h2))
          else
            var h3 := h2[tmp.v := SetRight(h2[tmp.v], h2[node.v].left)];
            Outcome(Ok(()), l.(heap := h3, size := l.size + 1))
  }

  /** `insert(index, t)` with the empty-list case handled: inserting at `size` (which is
      index 0 of an empty list) appends; every other call behaves as written. */
  function Insert<T>(l: ListState<T>, index: int, t: T): (r: Outcome<T, ()>)
    requires Closed(l)
    ensures Closed(r.list)
    ensures index < 0 || index > l.size ==> r == Outcome(Err(IndexOutOfBounds(index, l.size)), l)
    ensures r.list.size == if r.result.Ok? then l.size + 1 else l.size
  {
    if index == l.size then Outcome(Ok(()), Add(l, t)) else InsertAsWritten(l, index, t)
  }

  /** `add(t)` for a reference that may be null: the node factory's `requireNonNull`
      throws before any field is touched, so a null value leaves the list as it was. */
  function AddNullable<T>(l: ListState<T>, t: Nullable<T>): (r: Outcome<T, ()>)
    requires Closed(l)
    ensures Closed(r.list)
  {
    if t.Null? then Outcome(Err(NullPointer), l) else Outcome(Ok(()), Add(l, t.v))
  }

  /** `insert(index, t)` for a reference that may be null: the bounds are checked first,
      then every branch builds the new node (which rejects null) before relinking. */
  function InsertNullable<T>(l: ListState<T>, index: int, t: Nullable<T>): (r: Outcome<T, ()>)
    requires Closed(l)
    ensures Closed(r.list)
  {
    if index < 0 || index > l.size then Outcome(Err(IndexOutOfBounds(index, l.size)), l)
    else if t.Null? then Outcome(Err(NullPointer), l)
    else Insert(l, index, t.v)
  }

  /** The link repair of `remove`: the left neighbour's right link skips node `a`, then the
      right neighbour's left link skips it. */
  function Splice<T>(h: Heap<T>, a: nat): (r: Heap<T>)
    requires WellFormed(h) && a < |h|
    ensures WellFormed(r) && |r| == |h|
    ensures r[a] == h[a]
    ensures forall b :: 0 <= b < |h| ==> r[b].value == h[b].value
  {
    var n := h[a];
    var h1 := if n.left.Value? then h[n.left.v := SetRight(h[n.left.v], n.right)] else h;
    var n1 := h1[a];
    if n1.right.Value? then h1[n1.right.v := SetLeft(h1[n1.right.v], n1.left)] else h1
  }

  /** `remove(index)` as written: after unlinking, the root is advanced if the removed node
      was the root, and otherwise (`else if`) the tail is moved back if it was the tail. */
  function RemoveAsWritten<T>(l: ListState<T>, index: int): (r: Outcome<T, T>)
    requires Closed(l)
    ensures Closed(r.list)
    ensures index < 0 || index >= l.size ==> r == Outcome(Err(IndexOutOfBounds(index, l.size)), l)
    ensures r.list.size == if r.result.Ok? then l.size - 1 else l.size
    ensures |r.list.heap| == |l.heap|
  {
    if index < 0 || index >= l.size then
      Outcome(Err(IndexOutOfBounds(index, l.size)), l)
    else
      match GetNode(l, index)
      case Err(e) => Outcome(Err(e), l)
      case Ok(node) =>
        if node.Null? then Outcome(Err(NullPointer), l)
        else
          var h := Splice(l.heap, node.v);
          var root := if node == l.root then h[node.v].right else l.root;
          var tail := if node == l.root then l.tail else if node == l.tail then h[node.v].left else l.tail;
          Outcome(Ok(h[node.v].value.v), ListState(h, root, tail, l.size - 1))
  }

  /** `remove(index)` with the root and the tail repaired independently, so that removing
      the only node also clears the tail. */
  function Remove<T>(l: ListState<T>, index: int): (r: Outcome<T, T>)
    requires Closed(l)
    ensures Closed(r.list)
    ensures index < 0 || index >= l.size ==> r == Outcome(Err(IndexOutOfBounds(index, l.size)), l)
    ensures r.list.size == if r.result.Ok? then l.size - 1 else l.size
    ensures |r.list.heap| == |l.heap|
  {
    if index < 0 || index >= l.size then
      Outcome(Err(IndexOutOfBounds(index, l.size)), l)
    else
      match GetNode(l, index)
      case Err(e) => Outcome(Err(e), l)
      case Ok(node) =>
        if node.Null? then Outcome(Err(NullPointer), l)
        else
          var h := Splice(l.heap, node.v);
          var root := if node == l.root then h[node.v].right else l.root;
          var tail := if node == l.tail then h[node.v].left else l.tail;
          Outcome(Ok(h[node.v].value.v), ListState(h, root, tail, l.size - 1))
  }

  /** `get(index)`. */
  function Get<T>(l: ListState<T>, index: int): (r: Result<T>)
    requires Closed(l)
    ensures index < 0 || index >= l.size ==> r == Err(IndexOutOfBounds(index, l.size))
    ensures r.Ok? ==> exists a :: 0 <= a < |l.heap| && l.heap[a].value == Value(r.value)
  {
    if index < 0 || index >= l.size then Err(IndexOutOfBounds(index, l.size))
    else
      match GetNode(l, index)
      case Err(e) => Err(e)
      case Ok(node) => if node.Null? then Err(NullPointer) else Ok(l.heap[node.v].value.v)
  }

  /** `set(index, t)`: overwrites the value of the node at `index`. */
  function Set<T>(l: ListState<T>, index: int, t: T): (r: Outcome<T, ()>)
    requires Closed(l)
    ensures Closed(r.list)
    ensures index < 0 || index >= l.size ==> r == Outcome(Err(IndexOutOfBounds(index, l.size)), l)
    ensures r.list.root == l.root && r.list.tail == l.tail && r.list.size == l.size && |r.list.heap| == |l.heap|
    ensures forall a :: 0 <= a < |l.heap| ==> r.list.heap[a].left == l.heap[a].left && r.list.heap[a].right == l.heap[a].right
  {
    if index < 0 || index >= l.size then
      Outcome(Err(IndexOutOfBounds(index, l.size)), l)
    else
      match GetNode(l, index)
      case Err(e) => Outcome(Err(e), l)
      case Ok(node) =>
        if node.Null? then Outcome(Err(NullPointer), l)
        else Outcome(Ok(()), l.(heap := l.heap[node.v := SetValue(l.heap[node.v], Value(t))]))
  }

  // ---------------------------------------------------------------------------
  // The implementation refines the list ADT on valid states.

  /** Both traversal directions of `getNode` reach the node holding the `index`-th value:
      `index` right hops from the root and `size - 1 - index` left hops from the tail. */
  lemma GetNodeReaches<T>(l: ListState<T>, index: nat)
    requires Valid(l) && index < l.size
    ensures HopRight(l.heap, l.root, index) == Ok(Value(ListChain(l)[index]))
    ensures HopLeft(l.heap, l.tail, l.size - 1 - index) == Ok(Value(ListChain(l)[index]))
    ensures GetNode(l, index) == Ok(Value(ListChain(l)[index]))
    ensures Value(Contents(l)[index]) == l.heap[ListChain(l)[index]].value
  {
    var ch := ListChain(l);
    HopRightAlong(l.heap, l.root, l.tail, ch, 0, index);
    HopLeftAlong(l.heap, l.root, l.tail, ch, l.size - 1, l.size - 1 - index);
  }

  /** The chain of `add(t)` is the old chain followed by the new node. */
  lemma AddLinked<T>(l: ListState<T>, t: T)
    requires Valid(l)
    ensures Linked(Add(l, t).heap, Add(l, t).root, Add(l, t).tail, ListChain(l) + [|l.heap|])
  {
    var ch := ListChain(l);
    var r := Add(l, t);
    var a := |l.heap|;
    var ch' := ch + [a];
    if l.tail.Null? {
      assert ch == [];
      assert ch' == [a];
    } else {
      var n := |ch|;
      assert n > 0;
      var last := ch[n - 1];
      assert l.tail == Value(last);
      forall k | 0 <= k < n - 1
        ensures r.heap[ch'[k]].right == Value(ch'[k + 1])
      {
        assert ch[k] != last;
      }
      forall k | 0 < k < n + 1
        ensures r.heap[ch'[k]].left == Value(ch'[k - 1])
      {
      }
      assert r.heap[ch'[n - 1]].right == Value(ch'[n]);
    }
  }

  /** `add` keeps the invariant and appends the value; on an empty list the new node is
      both the root and the tail. */
  lemma AddRefines<T>(l: ListState<T>, t: T)
    requires Valid(l)
    ensures Valid(Add(l, t))
    ensures Contents(Add(l, t)) == LinkedList.Add(Contents(l), t)
    ensures l.size == 0 ==> Add(l, t).root == Add(l, t).tail == Value(|l.heap|)
  {
    var ch := ListChain(l);
    var r := Add(l, t);
    var ch' := ch + [|l.heap|];
    AddLinked(l, t);
    ChainOfLinked(r.heap, r.root, r.tail, ch');
    assert ListChain(r) == ch';
    AddValues(l, r, t);
  }

  /** The values along the chain of `add(t)` are the old values followed by `t`: `add`
      changes only links of the old nodes. */
  lemma AddValues<T>(l: ListState<T>, r: ListState<T>, t: T)
    requires Valid(l) && r == Add(l, t) && Valid(r) && ListChain(r) == ListChain(l) + [|l.heap|]
    ensures Contents(r) == Contents(l) + [t]
  {
    var ch := ListChain(l);
    var ch' := ListChain(r);
    forall k | 0 <= k < |ch|
      ensures r.heap[ch'[k]].value == l.heap[ch[k]].value
    {
    }
  }

  /** Inserting at index 0 of a non-empty list puts the new node in front of the chain. */
  lemma InsertFrontLinked<T>(l: ListState<T>, t: T)
    requires Valid(l) && l.size > 0
    ensures InsertAsWritten(l, 0, t).result == Ok(())
    ensures Linked(InsertAsWritten(l, 0, t).list.heap, InsertAsWritten(l, 0, t).list.root,
                   InsertAsWritten(l, 0, t).list.tail, [|l.heap|] + ListChain(l))
  {
    var ch := ListChain(l);
    var r := InsertAsWritten(l, 0, t).list;
    var a := |l.heap|;
    assert l.root == Value(ch[0]);
    assert WithRight(Value(t), l.root).value == Node(Value(t), Null, l.root);
    var h1 := l.heap + [Node(Value(t), Null, l.root)];
    assert r == l.(heap := h1[ch[0] := SetLeft(h1[ch[0]], Value(a))], root := Value(a), size := l.size + 1);
    PrependLinked(l.heap, l.root, l.tail, ch, t);
  }

  /** A new node holding `t` whose right link is the old root, with the old root's left
      link turned to it, heads a chain one node longer. */
  lemma PrependLinked<T>(h: Heap<T>, root: Link, tail: Link, ch: seq<nat>, t: T)
    requires Linked(h, root, tail, ch) && |ch| > 0
    ensures var h1 := h + [Node(Value(t), Null, root)];
            Linked(h1[ch[0] := SetLeft(h1[ch[0]], Value(|h|))], Value(|h|), tail, [|h|] + ch)
  {
    var h1 := h + [Node(Value(t), Null, root)];
    var h2 := h1[ch[0] := SetLeft(h1[ch[0]], Value(|h|))];
    assert forall x :: 0 <= x < |h| && x != ch[0] ==> h2[x] == h[x];
    PrependLinkedAt(h, h2, root, tail, ch);
  }

  /** The same, stated over any arena one cell longer that differs from `h` only in the
      new last cell and the old root's left link. */
  lemma PrependLinkedAt<T>(h: Heap<T>, h2: Heap<T>, root: Link, tail: Link, ch: seq<nat>)
    requires Linked(h, root, tail, ch) && |ch| > 0 && |h2| == |h| + 1
    requires forall x :: 0 <= x < |h| && x != ch[0] ==> h2[x] == h[x]
    requires h2[ch[0]].left == Value(|h|) && h2[ch[0]].right == h[ch[0]].right
    requires h2[|h|].left.Null? && h2[|h|].right == root
    ensures Linked(h2, Value(|h|), tail, [|h|] + ch)
  {
    var a := |h|;
    var ch' := [a] + ch;
    var n := |ch|;
    forall k | 0 <= k < n
      ensures ch'[k + 1] == ch[k] && ch[k] < a
    {
    }
    PrependDistinct(ch, a);
    forall k | 0 <= k < n
      ensures h2[ch'[k]].right == Value(ch'[k + 1])
    {
      if k > 0 {
        assert ch'[k] == ch[k - 1] && h[ch[k - 1]].right == Value(ch[k]);
      }
    }
    forall k | 0 < k < n + 1
      ensures h2[ch'[k]].left == Value(ch'[k - 1])
    {
      if k > 1 {
        assert ch[k - 1] != ch[0];
        assert ch'[k] == ch[k - 1] && ch'[k - 1] == ch[k - 2] && h[ch[k - 1]].left == Value(ch[k - 2]);
      }
    }
    assert h2[ch'[n]].right.Null?;
  }

  /** Putting an address above all of a chain's in front keeps its addresses distinct. */
  lemma PrependDistinct(ch: seq<nat>, a: nat)
    requires forall k :: 0 <= k < |ch| ==> ch[k] < a
    requires forall i, j :: 0 <= i < j < |ch| ==> ch[i] != ch[j]
    ensures forall i, j :: 0 <= i < j < |[a] + ch| ==> ([a] + ch)[i] != ([a] + ch)[j]
  {
    var ch' := [a] + ch;
    forall i, j | 0 <= i < j < |ch'|
      ensures ch'[i] != ch'[j]
    {
      assert ch'[j] == ch[j - 1];
      if i > 0 {
        assert ch'[i] == ch[i - 1];
      }
    }
  }

  /** The arena after a new node holding `t` is spliced between nodes `p` and `q`. */
  function SplicedIn<T>(h: Heap<T>, p: nat, q: nat, t: T): (r: Heap<T>)
    requires p < |h| && q < |h|
    ensures |r| == |h| + 1 && r[|h|] == Node(Value(t), Value(p), Value(q))
    ensures forall b :: 0 <= b < |h| ==> r[b].value == h[b].value
  {
    var a := |h|;
    var h1 := h + [Node(Value(t), Value(p), Value(q))];
    var h2 := h1[q := h1[q].(left := Value(a))];
    h2[p := h2[p].(right := Value(a))]
  }

  /** The cells of the spliced arena and the positions of the spliced chain. */
  lemma SplicedInFacts<T>(h: Heap<T>, root: Link, tail: Link, ch: seq<nat>, index: nat, t: T)
    requires Linked(h, root, tail, ch) && 0 < index < |ch|
    ensures var h' := SplicedIn(h, ch[index - 1], ch[index], t);
            var a := |h|;
            var ch' := ch[..index] + [a] + ch[index..];
            && |h'| == a + 1 && |ch'| == |ch| + 1
            && h'[a] == Node(Value(t), Value(ch[index - 1]), Value(ch[index]))
            && h'[ch[index]] == h[ch[index]].(left := Value(a))
            && h'[ch[index - 1]] == h[ch[index - 1]].(right := Value(a))
            && (forall k :: 0 <= k < |ch| && k != index - 1 && k != index ==> h'[ch[k]] == h[ch[k]])
            && (forall k :: 0 <= k < index ==> ch'[k] == ch[k])
            && ch'[index] == a
            && (forall k :: index < k <= |ch| ==> ch'[k] == ch[k - 1])
  {
  }

  /** The right links along the spliced chain. */
  lemma SplicedInRightLinks<T>(h: Heap<T>, root: Link, tail: Link, ch: seq<nat>, index: nat, t: T)
    requires Linked(h, root, tail, ch) && 0 < index < |ch|
    ensures var h' := SplicedIn(h, ch[index - 1], ch[index], t);
            var ch' := ch[..index] + [|h|] + ch[index..];
            forall k :: 0 <= k < |ch'| - 1 ==> h'[ch'[k]].right == Value(ch'[k + 1])
  {
    SplicedInFacts(h, root, tail, ch, index, t);
  }

  /** The left links along the spliced chain. */
  lemma SplicedInLeftLinks<T>(h: Heap<T>, root: Link, tail: Link, ch: seq<nat>, index: nat, t: T)
    requires Linked(h, root, tail, ch) && 0 < index < |ch|
    ensures var h' := SplicedIn(h, ch[index - 1], ch[index], t);
            var ch' := ch[..index] + [|h|] + ch[index..];
            forall k :: 0 < k < |ch'| ==> h'[ch'[k]].left == Value(ch'[k - 1])
  {
    SplicedInFacts(h, root, tail, ch, index, t);
    var h' := SplicedIn(h, ch[index - 1], ch[index], t);
    var ch' := ch[..index] + [|h|] + ch[index..];
    forall k | 0 < k < |ch'|
      ensures h'[ch'[k]].left == Value(ch'[k - 1])
    {
      if k > index + 1 {
        assert ch'[k] == ch[k - 1] && ch'[k - 1] == ch[k - 2];
      }
    }
  }

  /** Splicing a new node into a linked chain between positions `index - 1` and `index`
      yields a linked chain one longer. */
  lemma SplicedInLinked<T>(h: Heap<T>, root: Link, tail: Link, ch: seq<nat>, index: nat, t: T)
    requires Linked(h, root, tail, ch) && 0 < index < |ch|
    ensures Linked(SplicedIn(h, ch[index - 1], ch[index], t), root, tail, ch[..index] + [|h|] + ch[index..])
  {
    SplicedInFacts(h, root, tail, ch, index, t);
    SplicedInRightLinks(h, root, tail, ch, index, t);
    SplicedInLeftLinks(h, root, tail, ch, index, t);
    var ch' := ch[..index] + [|h|] + ch[index..];
    assert ch'[0] == ch[0] && ch'[|ch'| - 1] == ch[|ch| - 1];
  }

  /** What `insert(index, t)` does for `0 < index < size` on a valid list. */
  lemma InsertMiddleResult<T>(l: ListState<T>, index: nat, t: T)
    requires Valid(l) && 0 < index < l.size
    ensures InsertAsWritten(l, index, t) ==
      Outcome(Ok(()), l.(heap := SplicedIn(l.heap, ListChain(l)[index - 1], ListChain(l)[index], t),
                         size := l.size + 1))
  {
    var ch := ListChain(l);
    GetNodeReaches(l, index);
    assert l.heap[ch[index]].left == Value(ch[index - 1]);
  }

  /** The values along the spliced chain: the old values with `t` at position `index`. */
  lemma SplicedInValues<T>(h: Heap<T>, root: Link, tail: Link, ch: seq<nat>, index: nat, t: T)
    requires WellFormed(h) && Linked(h, root, tail, ch) && 0 < index < |ch|
    ensures var h' := SplicedIn(h, ch[index - 1], ch[index], t);
            WellFormed(h') &&
            ValuesOf(h', ch[..index] + [|h|] + ch[index..]) == LinkedList.Insert(ValuesOf(h, ch), index, t)
  {
    SplicedInFacts(h, root, tail, ch, index, t);
    InsertedValues(h, SplicedIn(h, ch[index - 1], ch[index], t), ch, index, t);
  }

  /** A new cell holding `t` at the end of the arena, placed at `index` in a chain whose
      other cells keep their values, inserts `t` at `index` in the chain's values. */
  lemma InsertedValues<T>(h: Heap<T>, h': Heap<T>, ch: seq<nat>, index: nat, t: T)
    requires WellFormed(h) && WellFormed(h') && |h'| == |h| + 1 && index <= |ch|
    requires forall k :: 0 <= k < |ch| ==> ch[k] < |h|
    requires h'[|h|].value == Value(t)
    requires forall b :: 0 <= b < |h| ==> h'[b].value == h[b].value
    ensures ValuesOf(h', ch[..index] + [|h|] + ch[index..]) == LinkedList.Insert(ValuesOf(h, ch), index, t)
  {
    var ch' := ch[..index] + [|h|] + ch[index..];
    var s' := ValuesOf(h', ch');
    var e := LinkedList.Insert(ValuesOf(h, ch), index, t);
    forall k | 0 <= k < |s'|
      ensures s'[k] == e[k]
    {
      if k < index {
        assert ch'[k] == ch[k];
      } else if k == index {
        assert ch'[k] == |h|;
      } else {
        assert ch'[k] == ch[k - 1];
      }
    }
  }

  /** `insert(0, t)` on a non-empty valid list prepends. */
  lemma InsertFrontRefines<T>(l: ListState<T>, t: T)
    requires Valid(l) && l.size > 0
    ensures Insert(l, 0, t).result == Ok(())
    ensures Valid(Insert(l, 0, t).list)
    ensures Contents(Insert(l, 0, t).list) == LinkedList.Insert(Contents(l), 0, t)
  {
    var ch := ListChain(l);
    var r := Insert(l, 0, t).list;
    var ch' := [|l.heap|] + ch;
    InsertFrontLinked(l, t);
    ChainOfLinked(r.heap, r.root, r.tail, ch');
    assert ListChain(r) == ch';
    var e := LinkedList.Insert(Contents(l), 0, t);
    forall k | 0 <= k < |ch'|
      ensures Contents(r)[k] == e[k]
    {
      if k > 0 {
        assert ch'[k] == ch[k - 1];
      }
    }
  }

  /** `insert(index, t)` with `0 < index < size` on a valid list splices the value in. */
  lemma InsertMiddleRefines<T>(l: ListState<T>, index: nat, t: T)
    requires Valid(l) && 0 < index < l.size
    ensures var o := Insert(l, index, t);
            o.result == Ok(()) && Valid(o.list) && Contents(o.list) == LinkedList.Insert(Contents(l), index, t)
  {
    var ch := ListChain(l);
    var ch' := ch[..index] + [|l.heap|] + ch[index..];
    var h' := SplicedIn(l.heap, ch[index - 1], ch[index], t);
    var r := ListState(h', l.root, l.tail, l.size + 1);
    SplicedMiddleContents(l, index, t);
    InsertMiddleResult(l, index, t);
    assert Insert(l, index, t).list == r;
  }

  /** The state `insert(index, t)` produces for `0 < index < size` is valid and its chain
      is the old chain with the new node at position `index`. */
  lemma SplicedMiddleValid<T>(l: ListState<T>, index: nat, t: T)
    requires Valid(l) && 0 < index < l.size
    ensures var ch := ListChain(l);
            var r := ListState(SplicedIn(l.heap, ch[index - 1], ch[index], t), l.root, l.tail, l.size + 1);
            Valid(r) && ListChain(r) == ch[..index] + [|l.heap|] + ch[index..]
  {
    var ch := ListChain(l);
    var ch' := ch[..index] + [|l.heap|] + ch[index..];
    var h' := SplicedIn(l.heap, ch[index - 1], ch[index], t);
    var r := ListState(h', l.root, l.tail, l.size + 1);
    assert Linked(h', l.root, l.tail, ch') by {
      SplicedInLinked(l.heap, l.root, l.tail, ch, index, t);
    }
    assert WellFormed(h') by {
      SplicedInValues(l.heap, l.root, l.tail, ch, index, t);
    }
    ValidFromLinked(r, ch');
  }

  /** The contents of that state are the old contents with `t` inserted at `index`. */
  lemma SplicedMiddleContents<T>(l: ListState<T>, index: nat, t: T)
    requires Valid(l) && 0 < index < l.size
    ensures var ch := ListChain(l);
            var r := ListState(SplicedIn(l.heap, ch[index - 1], ch[index], t), l.root, l.tail, l.size + 1);
            Valid(r) && Contents(r) == LinkedList.Insert(Contents(l), index, t)
  {
    var ch := ListChain(l);
    var ch' := ch[..index] + [|l.heap|] + ch[index..];
    var h' := SplicedIn(l.heap, ch[index - 1], ch[index], t);
    var r := ListState(h', l.root, l.tail, l.size + 1);
    SplicedMiddleValid(l, index, t);
    assert Contents(r) == ValuesOf(h', ch');
    SplicedInValues(l.heap, l.root, l.tail, ch, index, t);
  }

  /** `insert` on a valid list: an index outside `[0, size]` throws
      `IndexOutOfBoundsException` before any change; any other index keeps the invariant
      and inserts the value at that position. */
  lemma InsertRefines<T>(l: ListState<T>, index: int, t: T)
    requires Valid(l)
    ensures index < 0 || index > l.size ==> Insert(l, index, t) == Outcome(Err(IndexOutOfBounds(index, l.size)), l)
    ensures 0 <= index <= l.size ==>
      && Insert(l, index, t).result == Ok(())
      && Valid(Insert(l, index, t).list)
      && Contents(Insert(l, index, t).list) == LinkedList.Insert(Contents(l), index, t)
  {
    if 0 <= index <= l.size {
      if index == l.size {
        AddRefines(l, t);
        assert LinkedList.Insert(Contents(l), index, t) == LinkedList.Add(Contents(l), t);
      } else if index == 0 {
        InsertFrontRefines(l, t);
      } else {
        InsertMiddleRefines(l, index, t);
      }
    }
  }

  /** The cells `Splice` changes when it unlinks the `i`-th node of a linked chain: only
      its two neighbours, each of which now points past it. */
  lemma SpliceFacts<T>(h: Heap<T>, root: Link, tail: Link, ch: seq<nat>, i: nat)
    requires WellFormed(h) && Linked(h, root, tail, ch) && i < |ch|
    ensures var h' := Splice(h, ch[i]);
            && (i > 0 ==> h'[ch[i - 1]] == h[ch[i - 1]].(right := h[ch[i]].right))
            && (i + 1 < |ch| ==> h'[ch[i + 1]] == h[ch[i + 1]].(left := h[ch[i]].left))
            && (forall k :: 0 <= k < |ch| && k + 1 != i && k != i + 1 ==> h'[ch[k]] == h[ch[k]])
  {
  }

  /** The right links along a chain with its `i`-th node unlinked. */
  lemma SpliceRightLinks<T>(h: Heap<T>, root: Link, tail: Link, ch: seq<nat>, i: nat)
    requires WellFormed(h) && Linked(h, root, tail, ch) && i < |ch|
    ensures var h' := Splice(h, ch[i]);
            var ch' := ch[..i] + ch[i + 1..];
            forall k :: 0 <= k < |ch'| - 1 ==> h'[ch'[k]].right == Value(ch'[k + 1])
  {
    SpliceFacts(h, root, tail, ch, i);
    var h' := Splice(h, ch[i]);
    var ch' := ch[..i] + ch[i + 1..];
    forall k | 0 <= k < |ch'| - 1
      ensures h'[ch'[k]].right == Value(ch'[k + 1])
    {
      if k + 1 < i {
        assert ch'[k] == ch[k] && ch'[k + 1] == ch[k + 1];
      } else if k + 1 == i {
        assert ch'[k] == ch[k] && ch'[k + 1] == ch[k + 2];
        assert h[ch[i]].right == Value(ch[i + 1]);
      } else {
        assert ch'[k] == ch[k + 1] && ch'[k + 1] == ch[k + 2];
      }
    }
  }

  /** The left links along a chain with its `i`-th node unlinked. */
  lemma SpliceLeftLinks<T>(h: Heap<T>, root: Link, tail: Link, ch: seq<nat>, i: nat)
    requires WellFormed(h) && Linked(h, root, tail, ch) && i < |ch|
    ensures var h' := Splice(h, ch[i]);
            var ch' := ch[..i] + ch[i + 1..];
            forall k :: 0 < k < |ch'| ==> h'[ch'[k]].left == Value(ch'[k - 1])
  {
    SpliceFacts(h, root, tail, ch, i);
    var h' := Splice(h, ch[i]);
    var ch' := ch[..i] + ch[i + 1..];
    forall k | 0 < k < |ch'|
      ensures h'[ch'[k]].left == Value(ch'[k - 1])
    {
      if k < i {
        assert ch'[k] == ch[k] && ch'[k - 1] == ch[k - 1];
      } else if k == i {
        assert ch'[k] == ch[k + 1] && ch'[k - 1] == ch[k - 1];
        assert h[ch[i]].left == Value(ch[i - 1]);
      } else {
        assert ch'[k] == ch[k + 1] && ch'[k - 1] == ch[k];
      }
    }
  }

  /** Unlinking the `i`-th node of a linked chain leaves a linked chain without it, whose
      root is the old second node when `i == 0` and whose tail is the old second-to-last
      node when `i` is the last position. */
  lemma SpliceLinked<T>(h: Heap<T>, root: Link, tail: Link, ch: seq<nat>, i: nat)
    requires WellFormed(h) && Linked(h, root, tail, ch) && i < |ch|
    ensures Linked(Splice(h, ch[i]),
                   if i == 0 then h[ch[i]].right else root,
                   if i == |ch| - 1 then h[ch[i]].left else tail,
                   ch[..i] + ch[i + 1..])
  {
    SpliceRightLinks(h, root, tail, ch, i);
    SpliceLeftLinks(h, root, tail, ch, i);
    DeleteKeepsDistinct(ch, i);
    SpliceEnds(h, root, tail, ch, i);
  }

  /** The ends of a chain with its `i`-th node unlinked: the new root and tail, the root
      without a left neighbour and the tail without a right one. */
  lemma SpliceEnds<T>(h: Heap<T>, root: Link, tail: Link, ch: seq<nat>, i: nat)
    requires WellFormed(h) && Linked(h, root, tail, ch) && i < |ch|
    ensures var h', ch' := Splice(h, ch[i]), ch[..i] + ch[i + 1..];
            var root', tail' := (if i == 0 then h[ch[i]].right else root), (if i == |ch| - 1 then h[ch[i]].left else tail);
            && (|ch'| == 0 ==> root'.Null? && tail'.Null?)
            && (|ch'| > 0 ==>
                  && root' == Value(ch'[0]) && tail' == Value(ch'[|ch'| - 1])
                  && h'[ch'[0]].left.Null? && h'[ch'[|ch'| - 1]].right.Null?)
  {
    SpliceFacts(h, root, tail, ch, i);
    var ch' := ch[..i] + ch[i + 1..];
    if |ch'| > 0 {
      var n := |ch'|;
      if i == 0 {
        assert h[ch[0]].right == Value(ch[1]);
        assert ch'[0] == ch[1];
      } else {
        assert ch'[0] == ch[0];
      }
      if i == |ch| - 1 {
        assert h[ch[i]].left == Value(ch[i - 1]);
        assert ch'[n - 1] == ch[i - 1];
      } else {
        assert ch'[n - 1] == ch[|ch| - 1];
      }
    }
  }

  /** Deleting one address from a chain of distinct addresses leaves them distinct. */
  lemma DeleteKeepsDistinct(ch: seq<nat>, i: nat)
    requires i < |ch| && forall a, b :: 0 <= a < b < |ch| ==> ch[a] != ch[b]
    ensures var ch' := ch[..i] + ch[i + 1..];
            forall a, b :: 0 <= a < b < |ch'| ==> ch'[a] != ch'[b]
  {
    var ch' := ch[..i] + ch[i + 1..];
    forall a, b | 0 <= a < b < |ch'|
      ensures ch'[a] != ch'[b]
    {
      var a0 := if a < i then a else a + 1;
      var b0 := if b < i then b else b + 1;
      assert ch'[a] == ch[a0] && ch'[b] == ch[b0];
    }
  }

  /** What `remove(index)` does on a valid list: it returns the `index`-th value and unlinks
      that node, repairing the root or the tail when the node was one of them. */
  lemma RemoveResult<T>(l: ListState<T>, index: nat)
    requires Valid(l) && index < l.size
    ensures var ch := ListChain(l);
            var n := l.heap[ch[index]];
            Remove(l, index) == Outcome(Ok(Contents(l)[index]),
              ListState(Splice(l.heap, ch[index]),
                        if index == 0 then n.right else l.root,
                        if index == l.size - 1 then n.left else l.tail,
                        l.size - 1))
  {
    var ch := ListChain(l);
    GetNodeReaches(l, index);
    assert Value(ch[index]) == l.root <==> index == 0;
    assert Value(ch[index]) == l.tail <==> index == l.size - 1;
  }

  /** After `remove(index)` on a valid list the state is valid and its chain is the old
      chain without the `index`-th node. */
  lemma RemoveValid<T>(l: ListState<T>, index: nat)
    requires Valid(l) && index < l.size
    ensures Valid(Remove(l, index).list)
    ensures ListChain(Remove(l, index).list) == ListChain(l)[..index] + ListChain(l)[index + 1..]
    ensures Contents(Remove(l, index).list)
            == ValuesOf(Remove(l, index).list.heap, ListChain(l)[..index] + ListChain(l)[index + 1..])
  {
    var ch := ListChain(l);
    var ch' := ch[..index] + ch[index + 1..];
    var r := Remove(l, index).list;
    RemoveResult(l, index);
    assert Linked(r.heap, r.root, r.tail, ch') by {
      SpliceLinked(l.heap, l.root, l.tail, ch, index);
    }
    ValidFromLinked(r, ch');
  }

  /** `remove` on a valid list: an index outside `[0, size)` throws before any change; any
      other index returns the value there, keeps the invariant and deletes that value. */
  lemma RemoveRefines<T>(l: ListState<T>, index: int)
    requires Valid(l)
    ensures index < 0 || index >= l.size ==> Remove(l, index) == Outcome(Err(IndexOutOfBounds(index, l.size)), l)
    ensures 0 <= index < l.size ==>
      && Remove(l, index).result == Ok(LinkedList.Remove(Contents(l), index).0)
      && Valid(Remove(l, index).list)
      && Contents(Remove(l, index).list) == LinkedList.Remove(Contents(l), index).1
  {
    if 0 <= index < l.size {
      var ch := ListChain(l);
      RemoveResult(l, index);
      RemoveValid(l, index);
      SpliceValues(l.heap, ch, index);
    }
  }

  /** Unlinking the `i`-th node of a chain removes exactly the `i`-th value. */
  lemma SpliceValues<T>(h: Heap<T>, ch: seq<nat>, i: nat)
    requires WellFormed(h) && i < |ch| && forall k :: 0 <= k < |ch| ==> ch[k] < |h|
    ensures ValuesOf(Splice(h, ch[i]), ch[..i] + ch[i + 1..]) == LinkedList.Remove(ValuesOf(h, ch), i).1
  {
    var ch' := ch[..i] + ch[i + 1..];
    var s' := ValuesOf(Splice(h, ch[i]), ch');
    var e := LinkedList.Remove(ValuesOf(h, ch), i).1;
    forall k | 0 <= k < |ch'|
      ensures s'[k] == e[k]
    {
      if k >= i {
        assert ch'[k] == ch[k + 1];
      } else {
        assert ch'[k] == ch[k];
      }
    }
  }

  /** The code as written agrees with `Remove` except when the removed node is the only
      one: with two or more nodes the removed node cannot be both the root and the tail. */
  lemma RemoveAsWrittenAgrees<T>(l: ListState<T>, index: int)
    requires Valid(l) && l.size != 1
    ensures RemoveAsWritten(l, index) == Remove(l, index)
  {
    if 0 <= index < l.size {
      var ch := ListChain(l);
      GetNodeReaches(l, index);
      assert ch[0] != ch[l.size - 1];
    }
  }

  /** Removing the only value as written empties the list but leaves `tail` referring to
      the removed node, so the invariant is broken. */
  lemma RemoveSoleAsWrittenLeavesTail<T>(l: ListState<T>)
    requires Valid(l) && l.size == 1
    ensures RemoveAsWritten(l, 0).result == Ok(Contents(l)[0])
    ensures RemoveAsWritten(l, 0).list.size == 0
    ensures RemoveAsWritten(l, 0).list.root.Null?
    ensures RemoveAsWritten(l, 0).list.tail == l.tail != Null
    ensures !Valid(RemoveAsWritten(l, 0).list)
  {
    GetNodeReaches(l, 0);
  }

  /** `get` on a valid list: an index outside `[0, size)` throws, any other returns the
      value at that position. */
  lemma GetRefines<T>(l: ListState<T>, index: int)
    requires Valid(l)
    ensures index < 0 || index >= l.size ==> Get(l, index) == Err(IndexOutOfBounds(index, l.size))
    ensures 0 <= index < l.size ==> Get(l, index) == Ok(Contents(l)[index])
  {
    if 0 <= index < l.size {
      GetNodeReaches(l, index);
    }
  }

  /** `add` and `insert` on a valid list with an argument that may be null: a null value
      throws `NullPointerException` (after the bounds check, for `insert`) and changes
      nothing; a non-null value is added or inserted as by the list ADT. */
  lemma NullableArguments<T>(l: ListState<T>, index: int, t: T)
    requires Valid(l)
    ensures AddNullable(l, Null) == Outcome(Err(NullPointer), l)
    ensures InsertNullable(l, index, Null)
            == Outcome(Err(if 0 <= index <= l.size then NullPointer else IndexOutOfBounds(index, l.size)), l)
    ensures var r := AddNullable(l, Value(t));
            r.result == Ok(()) && Valid(r.list) && Contents(r.list) == LinkedList.Add(Contents(l), t)
    ensures 0 <= index <= l.size ==>
      var r := InsertNullable(l, index, Value(t));
      r.result == Ok(()) && Valid(r.list) && Contents(r.list) == LinkedList.Insert(Contents(l), index, t)
  {
    AddRefines(l, t);
    InsertRefines(l, index, t);
  }

  /** `set` on a valid list: an index outside `[0, size)` throws before any change; any
      other keeps the invariant and the size and replaces only the value at that
      position. */
  lemma SetRefines<T>(l: ListState<T>, index: int, t: T)
    requires Valid(l)
    ensures index < 0 || index >= l.size ==> Set(l, index, t) == Outcome(Err(IndexOutOfBounds(index, l.size)), l)
    ensures 0 <= index < l.size ==>
      && Set(l, index, t).result == Ok(())
      && Valid(Set(l, index, t).list)
      && Set(l, index, t).list.size == l.size
      && Contents(Set(l, index, t).list) == LinkedList.Set(Contents(l), index, t)
  {
    if 0 <= index < l.size {
      var ch := ListChain(l);
      GetNodeReaches(l, index);
      var r := Set(l, index, t).list;
      assert r.heap == l.heap[ch[index] := SetValue(l.heap[ch[index]], Value(t))];
      SetAlong(l.heap, l.root, l.tail, ch, index, t);
      ValidFromLinked(r, ch);
    }
  }

  /** Storing a new value in the `index`-th node of a chain keeps every link and changes
      only the `index`-th value. */
  lemma SetAlong<T>(h: Heap<T>, root: Link, tail: Link, ch: seq<nat>, index: nat, t: T)
    requires WellFormed(h) && Linked(h, root, tail, ch) && index < |ch|
    ensures var h' := h[ch[index] := SetValue(h[ch[index]], Value(t))];
            && WellFormed(h') && Linked(h', root, tail, ch)
            && ValuesOf(h', ch) == LinkedList.Set(ValuesOf(h, ch), index, t)
  {
    var h' := h[ch[index] := SetValue(h[ch[index]], Value(t))];
    var e := LinkedList.Set(ValuesOf(h, ch), index, t);
    forall k | 0 <= k < |ch|
      ensures ValuesOf(h', ch)[k] == e[k]
    {
      if k != index {
        assert ch[k] != ch[index];
      }
    }
  }

  /** `size()`. */
  function Size<T>(l: ListState<T>): (n: int)
    requires Valid(l)
    ensures n == |Contents(l)|
  {
    l.size
  }

  // ---------------------------------------------------------------------------
  // Observers: `equals`, `hashCode` and `toString` walk the right links from the root
  // until a null link (or, for `toString`, the tail). A walk that meets no repeated node
  // passes at most as many nodes as the arena holds, so each walk is given the arena's
  // size as `fuel`; only a cycle of right links, on which the Java loops never end,
  // exhausts it.

  /** The loop of `equals`: nodes are compared pairwise by value, and the walk stops with
      `false` as soon as one list has a next node and the other has not. */
  function EqualsWalk<T(==)>(h1: Heap<T>, r1: Link, h2: Heap<T>, r2: Link, fuel: nat): (r: Result<bool>)
    requires WellFormed(h1) && WellFormed(h2) && InHeap(h1, r1) && InHeap(h2, r2)
    ensures r.Ok?
    decreases fuel
  {
    if r1.Null? || fuel == 0 then Ok(true)
    else
      var n1 := h1[r1.v];
      var other := if r2.Null? then Null else Value(h2[r2.v]);
      match BinaryNode.Equals(n1, other)
      case Err(e) => Err(e)
      case Ok(eq) =>
        if !eq then Ok(false)
        else
          var n2 := other.v;
          if (n1.right.Value? && n2.right.Null?) || (n1.right.Null? && n2.right.Value?) then Ok(false)
          else EqualsWalk(h1, n1.right, h2, n2.right, fuel - 1)
  }

  /** `equals(other)` between two lists: different sizes are unequal, otherwise the nodes
      are compared in order. */
  function Equals<T(==)>(a: ListState<T>, b: ListState<T>): (r: Result<bool>)
    requires Closed(a) && Closed(b)
    ensures r.Ok?
    ensures a.size != b.size ==> r == Ok(false)
  {
    if a.size != b.size then Ok(false) else EqualsWalk(a.heap, a.root, b.heap, b.root, |a.heap|)
  }

  /** The right links lead along `ch` and stop after its last address. */
  ghost predicate RightAlong<T>(h: Heap<T>, ch: seq<nat>) {
    && (forall k :: 0 <= k < |ch| ==> ch[k] < |h|)
    && (forall k :: 0 <= k < |ch| - 1 ==> h[ch[k]].right == Value(ch[k + 1]))
    && (|ch| > 0 ==> h[ch[|ch| - 1]].right.Null?)
  }

  /** `s` lists the values held along `ch`. */
  ghost predicate HoldsAlong<T>(h: Heap<T>, ch: seq<nat>, s: seq<T>) {
    |s| == |ch| && forall k :: 0 <= k < |ch| ==> ch[k] < |h| && h[ch[k]].value == Value(s[k])
  }

  /** From the `k`-th nodes of two chains of the same length, the walk of `equals` answers
      whether the remaining values agree. */
  lemma {:induction false} EqualsWalkAlong<T>(h1: Heap<T>, ch1: seq<nat>, sa: seq<T>,
                                              h2: Heap<T>, ch2: seq<nat>, sb: seq<T>, k: nat, fuel: nat)
    requires WellFormed(h1) && WellFormed(h2) && RightAlong(h1, ch1) && RightAlong(h2, ch2)
    requires HoldsAlong(h1, ch1, sa) && HoldsAlong(h2, ch2, sb)
    requires |ch1| == |ch2| && k < |ch1| && fuel >= |ch1| - k
    ensures EqualsWalk(h1, Value(ch1[k]), h2, Value(ch2[k]), fuel) == Ok(sa[k..] == sb[k..])
    decreases |ch1| - k
  {
    var n1, n2 := h1[ch1[k]], h2[ch2[k]];
    assert n1.value == Value(sa[k]) && n2.value == Value(sb[k]);
    assert sa[k..] == sb[k..] <==> sa[k] == sb[k] && sa[k + 1..] == sb[k + 1..] by {
      assert sa[k..] == [sa[k]] + sa[k + 1..] && sb[k..] == [sb[k]] + sb[k + 1..];
    }
    var rest := Ok(sa[k + 1..] == sb[k + 1..]);
    if k + 1 < |ch1| {
      assert n1.right == Value(ch1[k + 1]) && n2.right == Value(ch2[k + 1]);
      EqualsWalkAlong(h1, ch1, sa, h2, ch2, sb, k + 1, fuel - 1);
      assert EqualsWalk(h1, n1.right, h2, n2.right, fuel - 1) == rest;
    } else {
      assert n1.right.Null? && n2.right.Null?;
      assert sa[k + 1..] == [] && sb[k + 1..] == [];
    }
    EqualsWalkStep(h1, ch1[k], h2, ch2[k], fuel);
  }

  /** One step of the walk of `equals` from two nodes that both have a successor or both
      have none. */
  lemma EqualsWalkStep<T>(h1: Heap<T>, r1: nat, h2: Heap<T>, r2: nat, fuel: nat)
    requires WellFormed(h1) && WellFormed(h2) && r1 < |h1| && r2 < |h2| && fuel > 0
    requires h1[r1].right.Null? <==> h2[r2].right.Null?
    ensures EqualsWalk(h1, Value(r1), h2, Value(r2), fuel)
            == if h1[r1].value != h2[r2].value then Ok(false)
               else EqualsWalk(h1, h1[r1].right, h2, h2[r2].right, fuel - 1)
  {
  }

  /** Two valid lists are equal exactly when they hold the same values in the same order
      (which includes having the same size). */
  lemma EqualsIsContentEquality<T>(a: ListState<T>, b: ListState<T>)
    requires Valid(a) && Valid(b)
    ensures Equals(a, b) == Ok(Contents(a) == Contents(b))
  {
    if a.size == b.size && a.size > 0 {
      ValidSizeBound(a);
      EqualsWalkAlong(a.heap, ListChain(a), Contents(a), b.heap, ListChain(b), Contents(b), 0, |a.heap|);
      assert Contents(a)[0..] == Contents(a) && Contents(b)[0..] == Contents(b);
    }
  }

  /** The hash of a node holding `v`; the links do not enter it. */
  function ValueHash<T>(v: T, hash: T -> int): int {
    BinaryNode.HashCode(Node(Value(v), Null, Null), hash)
  }

  /** The hash the `hashCode` loop accumulates over a sequence of values: start from 61 and
      fold `37 * acc + nodeHash` with 32-bit wrap-around. */
  function SeqHash<T>(s: seq<T>, hash: T -> int): (r: int)
    ensures JavaInt.InRange(r)
    decreases |s|
  {
    if s == [] then 61
    else JavaInt.Wrap(37 * SeqHash(s[..|s| - 1], hash) + ValueHash(s[|s| - 1], hash))
  }

  /** The loop of `hashCode`. */
  function HashWalk<T>(h: Heap<T>, r: Link, acc: int, fuel: nat, hash: T -> int): (x: int)
    requires WellFormed(h) && InHeap(h, r)
    ensures JavaInt.InRange(acc) ==> JavaInt.InRange(x)
    decreases fuel
  {
    if r.Null? || fuel == 0 then acc
    else HashWalk(h, h[r.v].right, JavaInt.Wrap(37 * acc + BinaryNode.HashCode(h[r.v], hash)), fuel - 1, hash)
  }

  /** `hashCode()`. */
  function HashCode<T>(l: ListState<T>, hash: T -> int): (x: int)
    requires Closed(l)
    ensures JavaInt.InRange(x)
  {
    HashWalk(l.heap, l.root, 61, |l.heap|, hash)
  }

  /** One more value extends the hash by one step of the fold. */
  lemma SeqHashSnoc<T>(s: seq<T>, k: nat, hash: T -> int)
    requires k < |s|
    ensures SeqHash(s[..k + 1], hash) == JavaInt.Wrap(37 * SeqHash(s[..k], hash) + ValueHash(s[k], hash))
  {
    assert s[..k + 1][..k] == s[..k];
  }

  /** From the `k`-th node of a chain, with the hash of the first `k` values accumulated,
      the walk of `hashCode` ends with the hash of all the values. */
  lemma {:induction false} HashWalkAlong<T>(h: Heap<T>, ch: seq<nat>, s: seq<T>, k: nat, fuel: nat, hash: T -> int)
    requires WellFormed(h) && RightAlong(h, ch) && HoldsAlong(h, ch, s) && k < |ch| && fuel >= |ch| - k
    ensures HashWalk(h, Value(ch[k]), SeqHash(s[..k], hash), fuel, hash) == SeqHash(s, hash)
    decreases |ch| - k
  {
    var n := h[ch[k]];
    var acc := SeqHash(s[..k], hash);
    assert n.value == Value(s[k]);
    assert BinaryNode.HashCode(n, hash) == ValueHash(s[k], hash);
    SeqHashSnoc(s, k, hash);
    assert HashWalk(h, Value(ch[k]), acc, fuel, hash)
        == HashWalk(h, n.right, SeqHash(s[..k + 1], hash), fuel - 1, hash);
    if k + 1 < |ch| {
      assert n.right == Value(ch[k + 1]);
      HashWalkAlong(h, ch, s, k + 1, fuel - 1, hash);
    } else {
      assert n.right.Null?;
      assert s[..k + 1] == s;
    }
  }

  /** The hash of a valid list is the hash of its contents, so it depends on the values
      only. */
  lemma HashCodeIsContentHash<T>(l: ListState<T>, hash: T -> int)
    requires Valid(l)
    ensures HashCode(l, hash) == SeqHash(Contents(l), hash)
  {
    if l.size > 0 {
      ValidSizeBound(l);
      HashWalkAlong(l.heap, ListChain(l), Contents(l), 0, |l.heap|, hash);
      assert Contents(l)[..0] == [];
    }
  }

  /** Equal lists have equal hash codes. */
  lemma EqualListsHaveEqualHashCodes<T>(a: ListState<T>, b: ListState<T>, hash: T -> int)
    requires Valid(a) && Valid(b) && Equals(a, b) == Ok(true)
    ensures HashCode(a, hash) == HashCode(b, hash)
  {
    EqualsIsContentEquality(a, b);
    HashCodeIsContentHash(a, hash);
    HashCodeIsContentHash(b, hash);
  }

  /** `xs` joined with `sep` between consecutive elements. */
  function Join(xs: seq<string>, sep: string): string
    decreases |xs|
  {
    if |xs| == 0 then "" else if |xs| == 1 then xs[0] else xs[0] + sep + Join(xs[1..], sep)
  }

  /** The string forms of the values, in order. */
  function Strings<T>(s: seq<T>, str: T -> string): (r: seq<string>)
    ensures |r| == |s| && forall k :: 0 <= k < |s| ==> r[k] == str(s[k])
  {
    seq(|s|, k requires 0 <= k < |s| => str(s[k]))
  }

  /** The loop of `toString`: each node before `tail` contributes its string and ", ". */
  function ItemsWalk<T>(h: Heap<T>, r: Link, tail: Link, fuel: nat, str: T -> string): (x: Result<string>)
    requires WellFormed(h) && InHeap(h, r)
    ensures x.Err? ==> x.error == NullPointer
    decreases fuel
  {
    if r == tail || fuel == 0 then Ok("")
    else if r.Null? then Err(NullPointer)
    else
      match BinaryNode.ToString(h[r.v], str)
      case Err(e) => Err(e)
      case Ok(x) =>
        match ItemsWalk(h, h[r.v].right, tail, fuel - 1, str)
        case Err(e) => Err(e)
        case Ok(rest) => Ok(x + ", " + rest)
  }

  /** `toString()`: the items before the tail, then the tail's string, which is
      dereferenced even when there is no tail. */
  function ToString<T>(l: ListState<T>, str: T -> string): (r: Result<string>)
    requires Closed(l)
    ensures r.Err? ==> r.error == NullPointer
    ensures l.tail.Null? ==> r.Err?
    ensures r.Ok? ==> |r.value| >= 4 && r.value[..2] == "{ " && r.value[|r.value| - 2..] == " }"
  {
    match ItemsWalk(l.heap, l.root, l.tail, |l.heap|, str)
    case Err(e) => Err(e)
    case Ok(items) =>
      if l.tail.Null? then Err(NullPointer)
      else
        match BinaryNode.ToString(l.heap[l.tail.v], str)
        case Err(e) => Err(e)
        case Ok(x) => Ok("{ " + items + x + " }")
  }

  /** One step of `toString`'s loop: a node other than the tail contributes its string
      and ", " ahead of the rest of the walk. */
  lemma ItemsWalkStep<T>(h: Heap<T>, a: nat, tail: Link, fuel: nat, str: T -> string)
    requires WellFormed(h) && a < |h| && Value(a) != tail && fuel > 0
    requires ItemsWalk(h, h[a].right, tail, fuel - 1, str).Ok?
    ensures ItemsWalk(h, Value(a), tail, fuel, str)
            == Ok(str(h[a].value.v) + ", " + ItemsWalk(h, h[a].right, tail, fuel - 1, str).value)
  {
    assert BinaryNode.ToString(h[a], str) == Ok(str(h[a].value.v));
  }

  /** The strings each followed by ", ", as the `toString` loop builds them. */
  function Items(xs: seq<string>): string
    decreases |xs|
  {
    if xs == [] then "" else xs[0] + ", " + Items(xs[1..])
  }

  /** The items before the last string, then the last string, are all the strings
      joined by ", ". */
  lemma {:induction false} ItemsThenLast(xs: seq<string>)
    requires |xs| > 0
    ensures Items(xs[..|xs| - 1]) + xs[|xs| - 1] == Join(xs, ", ")
    decreases |xs|
  {
    if |xs| > 1 {
      var ys := xs[1..];
      ItemsThenLast(ys);
      assert xs[..|xs| - 1][1..] == ys[..|ys| - 1];
      assert xs[..|xs| - 1][0] == xs[0] && ys[|ys| - 1] == xs[|xs| - 1];
      var a := Items(ys[..|ys| - 1]);
      assert xs[0] + ", " + a + xs[|xs| - 1] == xs[0] + ", " + (a + xs[|xs| - 1]);
    }
  }

  /** From the `k`-th node of a chain whose last address occurs only once, the `toString`
      loop collects the strings of the values from the `k`-th up to, not including, the
      last. */
  lemma {:induction false} ItemsWalkAlong<T>(h: Heap<T>, ch: seq<nat>, s: seq<T>, k: nat, fuel: nat, str: T -> string)
    requires WellFormed(h) && RightAlong(h, ch) && HoldsAlong(h, ch, s) && k < |ch| && fuel >= |ch| - k
    requires forall i :: 0 <= i < |ch| - 1 ==> ch[i] != ch[|ch| - 1]
    ensures ItemsWalk(h, Value(ch[k]), Value(ch[|ch| - 1]), fuel, str) == Ok(Items(Strings(s, str)[k..|ch| - 1]))
    decreases |ch| - k
  {
    var xs := Strings(s, str);
    if k + 1 < |ch| {
      assert h[ch[k]].value == Value(s[k]);
      assert h[ch[k]].right == Value(ch[k + 1]);
      assert ch[k] != ch[|ch| - 1];
      ItemsWalkAlong(h, ch, s, k + 1, fuel - 1, str);
      ItemsWalkStep(h, ch[k], Value(ch[|ch| - 1]), fuel, str);
      assert xs[k..|ch| - 1][0] == xs[k] && xs[k..|ch| - 1][1..] == xs[k + 1..|ch| - 1];
    } else {
      assert xs[k..|ch| - 1] == [];
    }
  }

  /** The string form of a valid list: "{ " and " }" around the values' strings separated
      by ", "; an empty list cannot be printed. */
  lemma ToStringOfValid<T>(l: ListState<T>, str: T -> string)
    requires Valid(l)
    ensures l.size == 0 ==> ToString(l, str) == Err(NullPointer)
    ensures l.size > 0 ==> ToString(l, str) == Ok("{ " + Join(Strings(Contents(l), str), ", ") + " }")
  {
    if l.size > 0 {
      var ch, s := ListChain(l), Contents(l);
      ValidSizeBound(l);
      var xs := Strings(s, str);
      ItemsWalkAlong(l.heap, ch, s, 0, |l.heap|, str);
      assert l.root == Value(ch[0]) && l.tail == Value(ch[l.size - 1]);
      assert xs[0..l.size - 1] == xs[..|xs| - 1];
      ItemsThenLast(xs);
      assert l.heap[ch[l.size - 1]].value == Value(s[l.size - 1]);
      var items := Items(xs[..|xs| - 1]);
      var x := str(s[l.size - 1]);
      assert ItemsWalk(l.heap, l.root, l.tail, |l.heap|, str) == Ok(items);
      assert BinaryNode.ToString(l.heap[l.tail.v], str) == Ok(x);
      assert ToString(l, str) == Ok("{ " + items + x + " }");
      assert "{ " + items + x + " }" == "{ " + (items + x) + " }";
    }
  }

  // ---------------------------------------------------------------------------
  // `insert(0, t)` on an empty list as written.

  /** Inserting at index 0 of an empty list as written throws `NullPointerException` after
      the root has already been replaced, leaving a state with a root but size 0; `Insert`
      (see InsertRefines) gives the one-value list instead. */
  lemma InsertFrontOfEmptyAsWrittenThrows<T>(l: ListState<T>, t: T)
    requires Valid(l) && l.size == 0
    ensures InsertAsWritten(l, 0, t).result == Err(NullPointer)
    ensures InsertAsWritten(l, 0, t).list.root.Value? && InsertAsWritten(l, 0, t).list.size == 0
    ensures !Valid(InsertAsWritten(l, 0, t).list)
    ensures Insert(l, 0, t).result == Ok(()) && Contents(Insert(l, 0, t).list) == [t]
  {
    InsertRefines(l, 0, t);
  }
  /** The state that failed call leaves is not an empty list to its observers: `equals`
      and `hashCode` walk from the new root, so it differs from a new list and hashes as
      the list holding `t` (a new list hashes as 61). */
  lemma FrontOfEmptyAsWrittenObservers<T>(t: T, hash: T -> int)
    ensures var l := InsertAsWritten(New<T>(), 0, t).list;
            && l.size == 0
            && Equals(l, New()) == Ok(false) && Equals(New(), l) == Ok(true)
            && HashCode(l, hash) == SeqHash([t], hash) && HashCode(New<T>(), hash) == 61
  {
    var l := InsertAsWritten(New<T>(), 0, t).list;
    assert l.heap == [Node(Value(t), Null, Null)] && l.root == Value(0);
    assert [t][..0] == [];
    assert SeqHash([t], hash) == JavaInt.Wrap(37 * 61 + ValueHash(t, hash));
    assert HashCode(l, hash) == HashWalk(l.heap, Null, JavaInt.Wrap(37 * 61 + ValueHash(t, hash)), 0, hash);
  }

}
