/** The list ADT of the `LinkedList` interface, stated over the abstract contents
    `seq<T>`: zero-based positions, `add` at the end, `insert` shifting later values
    ahead by one, `remove` returning the deleted value.

    These are the reference definitions that the node-based implementation in
    module DoublyLinkedList is proved to refine.
 */
module LinkedList {

  /** `add(t)`: the value goes at the end and the size grows by one. */
  function Add<T>(s: seq<T>, t: T): (r: seq<T>)
    ensures |r| == |s| + 1
    ensures r[|s|] == t
    ensures forall k :: 0 <= k < |s| ==> r[k] == s[k]
  {
    s + [t]
  }

  /** `insert(index, t)`: `t` lands at `index`, earlier values keep their positions and
      the value previously at `index` (and every later one) moves ahead by one. */
  function Insert<T>(s: seq<T>, index: nat, t: T): (r: seq<T>)
    requires index <= |s|
    ensures |r| == |s| + 1
    ensures r[index] == t
    ensures forall k :: 0 <= k < index ==> r[k] == s[k]
    ensures forall k :: index <= k < |s| ==> r[k + 1] == s[k]
  {
    s[..index] + [t] + s[index..]
  }

  /** `remove(index)`: the value at `index` is returned and deleted; later values move
      back by one and the size shrinks by one. */
  function Remove<T>(s: seq<T>, index: nat): (r: (T, seq<T>))
    requires index < |s|
    ensures r.0 == s[index]
    ensures |r.1| == |s| - 1
    ensures forall k :: 0 <= k < index ==> r.1[k] == s[k]
    ensures forall k :: index <= k < |s| - 1 ==> r.1[k] == s[k + 1]
  {
    (s[index], s[..index] + s[index + 1..])
  }

  /** `set(index, t)`: only position `index` changes, and the size is kept. */
  function Set<T>(s: seq<T>, index: nat, t: T): (r: seq<T>)
    requires index < |s|
    ensures |r| == |s|
    ensures r[index] == t
    ensures forall k :: 0 <= k < |s| && k != index ==> r[k] == s[k]
  {
    s[index := t]
  }

  /** Inserting at a position and then removing at the same position gives back the
      inserted value and the original contents. */
  lemma InsertThenRemove<T>(s: seq<T>, index: nat, t: T)
    requires index <= |s|
    ensures Remove(Insert(s, index, t), index) == (t, s)
  {
    var r := Insert(s, index, t);
    assert Remove(r, index).1 == s;
  }

  /** Reading a position after setting it gives the value set, and every other position
      keeps its value. */
  lemma SetThenGet<T>(s: seq<T>, index: nat, t: T, k: nat)
    requires index < |s| && k < |s|
    ensures Set(s, index, t)[k] == if k == index then t else s[k]
  {
  }

  /** The interface comment says inserting at `size() - 1` creates a new last element;
      with the insert semantics above the new value is second-to-last and the old last
      value stays last. */
  lemma InsertAtSizeMinusOneIsSecondToLast<T>(s: seq<T>, t: T)
    requires |s| >= 1
    ensures Insert(s, |s| - 1, t)[|s| - 1] == t
    ensures Insert(s, |s| - 1, t)[|s|] == s[|s| - 1]
  {
  }

  /** Appending `n` values one `add` at a time yields the old contents followed by them. */
  function AddAll<T>(s: seq<T>, xs: seq<T>): (r: seq<T>)
    ensures |r| == |s| + |xs|
    ensures r[..|s|] == s
    ensures r[|s|..] == xs
    decreases |xs|
  {
    if xs == [] then s else AddAll(Add(s, xs[0]), xs[1..])
  }
}
