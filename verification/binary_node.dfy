/** The value-plus-two-links cell that the doubly linked list is built from.

    A Java `BinaryNode` reference is modelled as an address into an arena of
    nodes (see module NodeChain): `Link` is a nullable address. The node's
    value is a nullable reference too, because the factories reject `null`
    but `setValue` does not.
 */
module BinaryNode {
  import opened Wrappers
  import JavaInt

  /** A nullable reference to a node: `Null` or the node's address in the arena. */
  type Link = Nullable<nat>

  datatype Node<T> = Node(value: Nullable<T>, left: Link, right: Link)

  /** `BinaryNode.from(value, left, right)`: the only constructor, which rejects a null value
      (`Objects.requireNonNull`) and otherwise stores exactly its three arguments. */
  function From<T>(value: Nullable<T>, left: Link, right: Link): (r: Result<Node<T>>)
    ensures r.Err? <==> value.Null?
    ensures r.Err? ==> r.error == NullPointer
    ensures r.Ok? ==> r.value.value == value && r.value.left == left && r.value.right == right
  {
    if value.Null? then Err(NullPointer) else Ok(Node(value, left, right))
  }

  /** `valueOf(v)`, the value-only factory: both links absent. */
  function ValueOf<T>(value: Nullable<T>): (r: Result<Node<T>>)
    ensures r.Ok? <==> value.Value?
    ensures r.Ok? ==> r.value.value == value && r.value.left.Null? && r.value.right.Null?
  {
    From(value, Null, Null)
  }

  /** `withLeft(v, l)`: only the left link is set. */
  function WithLeft<T>(value: Nullable<T>, left: Link): (r: Result<Node<T>>)
    ensures r.Ok? <==> value.Value?
    ensures r.Ok? ==> r.value.value == value && r.value.left == left && r.value.right.Null?
  {
    From(value, left, Null)
  }

  /** `withRight(v, r)`: only the right link is set. */
  function WithRight<T>(value: Nullable<T>, right: Link): (r: Result<Node<T>>)
    ensures r.Ok? <==> value.Value?
    ensures r.Ok? ==> r.value.value == value && r.value.left.Null? && r.value.right == right
  {
    From(value, Null, right)
  }

  /** `setValue`: no null check, so a node can come to hold `null` after construction. */
  function SetValue<T>(n: Node<T>, value: Nullable<T>): (r: Node<T>)
    ensures r.value == value && r.left == n.left && r.right == n.right
  {
    n.(value := value)
  }

  /** `setLeft`: replaces the left link only. */
  function SetLeft<T>(n: Node<T>, left: Link): (r: Node<T>)
    ensures r.left == left && r.value == n.value && r.right == n.right
  {
    n.(left := left)
  }

  /** `setRight`: replaces the right link only. */
  function SetRight<T>(n: Node<T>, right: Link): (r: Node<T>)
    ensures r.right == right && r.value == n.value && r.left == n.left
  {
    n.(right := right)
  }

  /** `equals(other)`: `false` for a null (or non-node) argument, otherwise the values are
      compared; the receiver's value is dereferenced, so a null value throws. */
  function Equals<T(==)>(n: Node<T>, other: Nullable<Node<T>>): (r: Result<bool>)
    ensures other.Null? ==> r == Ok(false)
    ensures r.Err? <==> other.Value? && n.value.Null?
    ensures r.Ok? && other.Value? ==> (r.value <==> n.value == other.v.value)
  {
    if other.Null? then Ok(false)
    else if n.value.Null? then Err(NullPointer)
    else Ok(n.value == other.v.value)
  }

  /** `hashCode()`: `11 * 37 + Objects.hashCode(value)`, with `Objects.hashCode(null) == 0`;
      `hash` is the element type's own `hashCode`. */
  function HashCode<T>(n: Node<T>, hash: T -> int): (r: int)
    ensures JavaInt.InRange(r)
  {
    JavaInt.Wrap(11 * 37 + (if n.value.Null? then 0 else hash(n.value.v)))
  }

  /** `toString()`: the value's string form; `str` is the element type's `toString`. */
  function ToString<T>(n: Node<T>, str: T -> string): (r: Result<string>)
    ensures r.Ok? <==> n.value.Value?
    ensures r.Ok? ==> r.value == str(n.value.v)
  {
    if n.value.Null? then Err(NullPointer) else Ok(str(n.value.v))
  }

  /** Equality looks at the value only: nodes with the same non-null value are equal
      whatever their links, and nodes with different values are not. */
  lemma EqualsIsValueEquality<T>(a: Node<T>, b: Node<T>)
    requires a.value.Value?
    ensures Equals(a, Value(b)) == Ok(a.value == b.value)
    ensures a.value == b.value ==> Equals(a, Value(b.(left := Null, right := Null))) == Ok(true)
  {
  }

  /** Node equality is an equivalence relation on nodes with non-null values. */
  lemma EqualsIsEquivalence<T>(a: Node<T>, b: Node<T>, c: Node<T>)
    requires a.value.Value? && b.value.Value? && c.value.Value?
    ensures Equals(a, Value(a)) == Ok(true)
    ensures Equals(a, Value(b)) == Ok(true) ==> Equals(b, Value(a)) == Ok(true)
    ensures Equals(a, Value(b)) == Ok(true) && Equals(b, Value(c)) == Ok(true) ==> Equals(a, Value(c)) == Ok(true)
  {
  }

  /** Equal nodes have equal hash codes, and the hash ignores both links. */
  lemma EqualNodesHaveEqualHashCodes<T>(a: Node<T>, b: Node<T>, hash: T -> int)
    requires Equals(a, Value(b)) == Ok(true)
    ensures HashCode(a, hash) == HashCode(b, hash)
    ensures HashCode(a, hash) == HashCode(a.(left := Null, right := Null), hash)
  {
  }

  /** The string form of a node built by a factory is its value's string form; a node
      whose value was set to null afterwards cannot be printed. */
  lemma ToStringOfValue<T>(v: T, left: Link, right: Link, str: T -> string)
    ensures From(Value(v), left, right).Ok?
    ensures ToString(From(Value(v), left, right).value, str) == Ok(str(v))
    ensures ToString(SetValue(From(Value(v), left, right).value, Null), str) == Err(NullPointer)
  {
  }
}
