/** The `Queue` view of the doubly linked list: values join at the end and leave from the
    front. `Queue.newInstance()` returns a `DoublyLinkedList`, which defines no `enqueue`
    or `dequeue`; the model takes `enqueue` to be `add` and `dequeue` to be `remove(0)`. */
module Queue {
  import opened Wrappers
  import BinaryNode
  import DoublyLinkedList

  type ListState<T> = DoublyLinkedList.ListState<T>

  /** `Queue.newInstance()`: an empty list-backed queue. */
  function NewInstance<T>(): (r: ListState<T>)
    ensures DoublyLinkedList.Valid(r) && DoublyLinkedList.Contents(r) == [] && r.size == 0
  {
    DoublyLinkedList.New()
  }

  /** `enqueue(t)`: `t` joins at the end and the size grows by one. */
  function Enqueue<T>(l: ListState<T>, t: T): (r: ListState<T>)
    requires DoublyLinkedList.Valid(l)
    ensures DoublyLinkedList.Valid(r) && r.size == l.size + 1
    ensures DoublyLinkedList.Contents(r) == DoublyLinkedList.Contents(l) + [t]
  {
    DoublyLinkedList.AddRefines(l, t);
    DoublyLinkedList.Add(l, t)
  }

  /** `dequeue()`: removes and returns the front value; an empty queue throws
      `IndexOutOfBoundsException` and is left as it was. */
  function Dequeue<T>(l: ListState<T>): (r: DoublyLinkedList.Outcome<T, T>)
    requires DoublyLinkedList.Valid(l)
    ensures l.size == 0 ==> r == DoublyLinkedList.Outcome(Err(IndexOutOfBounds(0, 0)), l)
    ensures l.size > 0 ==>
      var s := DoublyLinkedList.Contents(l);
      && r.result == Ok(s[0])
      && DoublyLinkedList.Valid(r.list) && r.list.size == l.size - 1
      && DoublyLinkedList.Contents(r.list) == s[1..]
  {
    DoublyLinkedList.RemoveRefines(l, 0);
    DoublyLinkedList.Remove(l, 0)
  }

  /** `size()`: the number of values in the queue. */
  function Size<T>(l: ListState<T>): (n: int)
    requires DoublyLinkedList.Valid(l)
    ensures n == |DoublyLinkedList.Contents(l)|
  {
    DoublyLinkedList.Size(l)
  }

  /** First in, first out: after enqueueing `t` on a non-empty queue, `dequeue` still
      returns the earliest value, and `t` stays at the back. */
  lemma EnqueueThenDequeue<T>(l: ListState<T>, t: T)
    requires DoublyLinkedList.Valid(l) && l.size > 0
    ensures Dequeue(Enqueue(l, t)).result == Ok(DoublyLinkedList.Contents(l)[0])
    ensures DoublyLinkedList.Contents(Dequeue(Enqueue(l, t)).list) == DoublyLinkedList.Contents(l)[1..] + [t]
  {
    var s := DoublyLinkedList.Contents(l);
    assert (s + [t])[1..] == s[1..] + [t];
  }

  /** Enqueueing the values of `xs` one by one. */
  function EnqueueAll<T>(l: ListState<T>, xs: seq<T>): (r: ListState<T>)
    requires DoublyLinkedList.Valid(l)
    ensures DoublyLinkedList.Valid(r) && DoublyLinkedList.Contents(r) == DoublyLinkedList.Contents(l) + xs
    decreases |xs|
  {
    if xs == [] then l
    else
      var r := EnqueueAll(Enqueue(l, xs[0]), xs[1..]);
      AppendHead(DoublyLinkedList.Contents(l), xs);
      r
  }

  /** Enqueueing the values of `xs` one by one on any closed state, valid or not: `add`
      relies on no invariant. Once the state has a tail, the root is never touched. */
  function EnqueueEach<T>(l: ListState<T>, xs: seq<T>): (r: ListState<T>)
    requires DoublyLinkedList.Closed(l)
    ensures DoublyLinkedList.Closed(r) && r.size == l.size + |xs|
    ensures l.tail.Value? ==> r.root == l.root && r.tail.Value?
    decreases |xs|
  {
    if xs == [] then l else EnqueueEach(DoublyLinkedList.Add(l, xs[0]), xs[1..])
  }

  /** Appending the head of `xs` and then the rest appends `xs`. */
  lemma AppendHead<T>(a: seq<T>, xs: seq<T>)
    requires xs != []
    ensures a + [xs[0]] + xs[1..] == a + xs
  {
    assert xs == [xs[0]] + xs[1..];
  }

  /** Draining a queue and refilling it: the front value is the first one enqueued after
      the queue became empty. */
  lemma RefilledQueueDequeuesFirst<T>(l: ListState<T>, x: T, xs: seq<T>)
    requires DoublyLinkedList.Valid(l) && l.size == 1
    ensures var drained := Dequeue(l).list;
            Dequeue(EnqueueAll(drained, [x] + xs)).result == Ok(x)
  {
  }

  /** `dequeue()` as written, through `remove(0)` as written. */
  function DequeueAsWritten<T>(l: ListState<T>): (r: DoublyLinkedList.Outcome<T, T>)
    requires DoublyLinkedList.Closed(l)
    ensures DoublyLinkedList.Closed(r.list)
    ensures l.size == 0 ==> r == DoublyLinkedList.Outcome(Err(IndexOutOfBounds(0, 0)), l)
    ensures r.list.size == if r.result.Ok? then l.size - 1 else l.size
  {
    DoublyLinkedList.RemoveAsWritten(l, 0)
  }

  /** As written, dequeueing the only value of a new queue returns it but leaves the
      queue with a null root, a tail on the removed node and size 0. */
  lemma DrainedAsWritten<T>(t: T)
    ensures var d := DequeueAsWritten(Enqueue(NewInstance<T>(), t));
            && d.result == Ok(t)
            && d.list.root.Null? && d.list.tail.Value? && d.list.size == 0
  {
    var q0 := Enqueue(NewInstance<T>(), t);
    assert q0.heap == [BinaryNode.Node(Value(t), Null, Null)] && q0.root == q0.tail == Value(0);
  }

  /** As written, `dequeue` on a state with a null root and two or more values walks from
      the null root and throws. */
  lemma NullRootDequeueThrows<T>(l: ListState<T>)
    requires DoublyLinkedList.Closed(l) && l.root.Null? && l.size >= 2
    ensures DequeueAsWritten(l).result == Err(NullPointer)
  {
    assert DoublyLinkedList.GetNode(l, 0) == Ok(Null);
  }

  /** As written, a queue that is drained and refilled breaks: after enqueue 1, dequeue,
      enqueue 2, enqueue 3 the root is still null while the tail is the node of 3, so the
      next dequeue throws `NullPointerException` instead of returning 2. */
  lemma DrainedQueueAsWrittenThrows()
    ensures var q1 := DequeueAsWritten(Enqueue(NewInstance<int>(), 1)).list;
            var q2 := DoublyLinkedList.Add(DoublyLinkedList.Add(q1, 2), 3);
            DequeueAsWritten(q2).result == Err(NullPointer)
  {
    var q0 := Enqueue(NewInstance<int>(), 1);
    assert q0.heap == [BinaryNode.Node(Value(1), Null, Null)] && q0.root == q0.tail == Value(0);
    var q1 := DequeueAsWritten(q0).list;
    assert q1.root.Null? && q1.tail == Value(0) && q1.size == 0;
    var q2 := DoublyLinkedList.Add(DoublyLinkedList.Add(q1, 2), 3);
    assert q2.root.Null? && q2.size == 2;
  }

  /** The same calls with the repaired `dequeue` return 2. */
  lemma DrainedQueueDequeues()
    ensures var q1 := Dequeue(Enqueue(NewInstance<int>(), 1)).list;
            Dequeue(Enqueue(Enqueue(q1, 2), 3)).result == Ok(2)
  {
  }
}
