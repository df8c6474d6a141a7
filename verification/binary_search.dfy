/** Binary search over a sorted array: the index of an element whose key equals the
    target's, or `-(insertion point + 1)` when there is none. */
module BinarySearch {
  import opened Wrappers
  import opened SortSpec

  /** `ip` is where `target` would be inserted into `data`: everything before has a smaller
      key and everything from there on a larger one. */
  ghost predicate InsertionPoint<T>(data: seq<T>, key: T -> int, target: T, ip: int) {
    && 0 <= ip <= |data|
    && (forall k :: 0 <= k < ip ==> key(data[k]) < key(target))
    && (forall k :: ip <= k < |data| ==> key(data[k]) > key(target))
  }

  /** `find(target, data)` on a sorted `data`. A null target throws as soon as it is
      compared, that is, unless `data` is empty. A non-negative result is the index of an
      element with the target's key; a negative one encodes the insertion point, and is
      returned exactly when no element has the target's key. */
  method Find<T>(target: Nullable<T>, data: seq<T>, key: T -> int) returns (r: Result<int>)
    requires SortedBetween(data, key, 0, |data|)
    ensures r.Err? <==> target.Null? && |data| > 0
    ensures r.Err? ==> r.error == NullPointer
    ensures target.Null? && data == [] ==> r == Ok(-1)
    ensures target.Value? && r.Ok? && r.value >= 0 ==>
      r.value < |data| && key(data[r.value]) == key(target.v)
    ensures target.Value? && r.Ok? && r.value < 0 ==>
      InsertionPoint(data, key, target.v, -(r.value + 1))
    ensures target.Value? ==>
      (r.Ok? && r.value < 0 <==> forall k :: 0 <= k < |data| ==> key(data[k]) != key(target.v))
  {
    var low, high := 0, |data| - 1;
    while low <= high
      invariant 0 <= low <= high + 1 <= |data|
      invariant target.Null? ==> low == 0 && high == |data| - 1
      invariant target.Value? ==> forall k :: 0 <= k < low ==> key(data[k]) < key(target.v)
      invariant target.Value? ==> forall k :: high < k < |data| ==> key(data[k]) > key(target.v)
    {
      var mid := low + (high - low) / 2;
      if target.Null? {
        return Err(NullPointer);
      }
      var t := target.v;
      if key(t) < key(data[mid]) {
        high := mid - 1;
      } else if key(t) > key(data[mid]) {
        low := mid + 1;
      } else {
        return Ok(mid);
      }
    }
    return Ok(-(low + 1));
  }

  /** The example in the class's `main`: on `{1, 2, 3, 4, 6, 7, 8, 9, 10, 12}`, `4` is found
      at index 3 and `5`, which is missing, would be inserted at index 4. */
  method FindInExample() returns (four: Result<int>, five: Result<int>)
    ensures four == Ok(3)
    ensures five == Ok(-5)
  {
    var data := [1, 2, 3, 4, 6, 7, 8, 9, 10, 12];
    ExampleData(data);
    four := Find(Value(4), data, IntKey);
    five := Find(Value(5), data, IntKey);
  }

  /** What the example's answers rest on: the array is sorted, holds 4 only at index 3,
      and has no 5, which falls between indices 3 and 4. */
  lemma ExampleData(data: seq<int>)
    requires data == [1, 2, 3, 4, 6, 7, 8, 9, 10, 12]
    ensures SortedBetween(data, IntKey, 0, |data|) && |data| == 10
    ensures forall k :: 0 <= k < |data| && data[k] == 4 ==> k == 3
    ensures forall k :: 0 <= k < |data| ==> data[k] != 5
    ensures IntKey(data[3]) < 5 < IntKey(data[4])
  {
  }
}
