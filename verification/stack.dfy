/** The `Stack` view of the doubly linked list: the top of the stack is the end of the
    list. `Stack.newInstance()` returns a `DoublyLinkedList`, which defines no `push` or
    `pop`; the model takes `push` to be `add` and `pop` to be `remove(size() - 1)`. */
module Stack {
  import opened Wrappers
  import BinaryNode
  import DoublyLinkedList

  type ListState<T> = DoublyLinkedList.ListState<T>

  /** `Stack.newInstance()`: an empty list-backed stack. */
  function NewInstance<T>(): (r: ListState<T>)
    ensures DoublyLinkedList.Valid(r) && DoublyLinkedList.Contents(r) == [] && r.size == 0
  {
    DoublyLinkedList.New()
  }

  /** `push(t)`: `t` goes on top and the size grows by one. */
  function Push<T>(l: ListState<T>, t: T): (r: ListState<T>)
    requires DoublyLinkedList.Valid(l)
    ensures DoublyLinkedList.Valid(r) && r.size == l.size + 1
    ensures DoublyLinkedList.Contents(r) == DoublyLinkedList.Contents(l) + [t]
  {
    DoublyLinkedList.AddRefines(l, t);
    DoublyLinkedList.Add(l, t)
  }

  /** `pop()`: removes and returns the top value; an empty stack throws
      `IndexOutOfBoundsException` (for index -1) and is left as it was. */
  function Pop<T>(l: ListState<T>): (r: DoublyLinkedList.Outcome<T, T>)
    requires DoublyLinkedList.Valid(l)
    ensures l.size == 0 ==> r == DoublyLinkedList.Outcome(Err(IndexOutOfBounds(-1, 0)), l)
    ensures l.size > 0 ==>
      var s := DoublyLinkedList.Contents(l);
      && r.result == Ok(s[|s| - 1])
      && DoublyLinkedList.Valid(r.list) && r.list.size == l.size - 1
      && DoublyLinkedList.Contents(r.list) == s[..|s| - 1]
  {
    DoublyLinkedList.RemoveRefines(l, l.size - 1);
    DoublyLinkedList.Remove(l, l.size - 1)
  }

  /** `pop()` through `remove(size() - 1)` as written, on any closed state: an empty stack
      throws `IndexOutOfBoundsException` (for index -1) and is left as it was, and the size
      shrinks by one exactly when a value comes back. */
  function PopAsWritten<T>(l: ListState<T>): (r: DoublyLinkedList.Outcome<T, T>)
    requires DoublyLinkedList.Closed(l)
    ensures DoublyLinkedList.Closed(r.list)
    ensures l.size == 0 ==> r == DoublyLinkedList.Outcome(Err(IndexOutOfBounds(-1, 0)), l)
    ensures r.list.size == if r.result.Ok? then l.size - 1 else l.size
  {
    DoublyLinkedList.RemoveAsWritten(l, l.size - 1)
  }

  /** On a valid stack of any size other than one, `pop` as written is the repaired `pop`. */
  lemma PopAsWrittenAgrees<T>(l: ListState<T>)
    requires DoublyLinkedList.Valid(l) && l.size != 1
    ensures PopAsWritten(l) == Pop(l)
  {
    DoublyLinkedList.RemoveAsWrittenAgrees(l, l.size - 1);
  }

  /** As written, popping the only value of a new stack returns it but leaves a null
      root, the tail on the removed node and size 0. */
  lemma DrainedStackAsWritten<T>(t: T)
    ensures var d := PopAsWritten(Push(NewInstance<T>(), t));
            && d.result == Ok(t) && d.list.root.Null? && d.list.tail == Value(0) && d.list.size == 0
            && d.list.heap == [BinaryNode.Node(Value(t), Null, Null)]
  {
    var s0 := Push(NewInstance<T>(), t);
    assert s0.heap == [BinaryNode.Node(Value(t), Null, Null)] && s0.root == s0.tail == Value(0);
  }

  /** As written, push 1, pop, push 2, push 3 leaves the node of 1 in front of the nodes
      of 2 and 3 and a null root. */
  lemma RefilledStackState()
    ensures DoublyLinkedList.Add(DoublyLinkedList.Add(PopAsWritten(Push(NewInstance<int>(), 1)).list, 2), 3)
            == DoublyLinkedList.ListState([BinaryNode.Node(Value(1), Null, Value(1)),
                                           BinaryNode.Node(Value(2), Value(0), Value(2)),
                                           BinaryNode.Node(Value(3), Value(1), Null)], Null, Value(2), 2)
  {
    DrainedStackAsWritten(1);
    var s1 := PopAsWritten(Push(NewInstance<int>(), 1)).list;
    var s2 := DoublyLinkedList.Add(s1, 2);
    assert s2 == DoublyLinkedList.ListState([BinaryNode.Node(Value(1), Null, Value(1)),
                                             BinaryNode.Node(Value(2), Value(0), Null)], Null, Value(1), 1);
  }

  /** As written, a stack that is drained and refilled still pops in last-in-first-out
      order, because `pop` reaches the top from the tail: after push 1, pop, push 2,
      push 3 the pops return 3 and then 2. But the refilled stack cannot be printed,
      since `toString` walks from the null root that the drain left. */
  lemma RefilledStackAsWritten()
    ensures var st := DoublyLinkedList.Add(DoublyLinkedList.Add(PopAsWritten(Push(NewInstance<int>(), 1)).list, 2), 3);
            && st.size == 2
            && PopAsWritten(st).result == Ok(3)
            && PopAsWritten(PopAsWritten(st).list).result == Ok(2)
            && PopAsWritten(PopAsWritten(st).list).list.size == 0
            && DoublyLinkedList.ToString(st, (n: int) => "n").Err?
  {
    RefilledStackState();
    var st := DoublyLinkedList.ListState([BinaryNode.Node(Value(1), Null, Value(1)),
                                          BinaryNode.Node(Value(2), Value(0), Value(2)),
                                          BinaryNode.Node(Value(3), Value(1), Null)], Null, Value(2), 2);
    var p1 := PopAsWritten(st);
    assert p1.result == Ok(3);
    assert p1.list.tail == Value(1) && p1.list.size == 1 && p1.list.heap[1].left == Value(0);
  }

  /** `size()`: the number of values on the stack. */
  function Size<T>(l: ListState<T>): (n: int)
    requires DoublyLinkedList.Valid(l)
    ensures n == |DoublyLinkedList.Contents(l)|
  {
    DoublyLinkedList.Size(l)
  }

  /** Last in, first out: popping right after pushing `t` returns `t` and restores the
      stack's contents. */
  lemma PushThenPop<T>(l: ListState<T>, t: T)
    requires DoublyLinkedList.Valid(l)
    ensures Pop(Push(l, t)).result == Ok(t)
    ensures DoublyLinkedList.Contents(Pop(Push(l, t)).list) == DoublyLinkedList.Contents(l)
  {
    var s := DoublyLinkedList.Contents(l);
    assert (s + [t])[..|s|] == s;
  }

  /** After pushing 0 and then 1 on a new stack, `pop` returns 1 and leaves one value. */
  lemma PopReturnsLastPushed()
    ensures var st := Push(Push(NewInstance<int>(), 0), 1);
            Pop(st).result == Ok(1) && Size(Pop(st).list) == 1
  {
    var st0 := NewInstance<int>();
    var st1 := Push(st0, 0);
    var st2 := Push(st1, 1);
    assert DoublyLinkedList.Contents(st2) == [0, 1];
  }
}
