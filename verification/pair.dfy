/** `Pair<A, B>`: an immutable pair of possibly-null references with componentwise
    equality, a hash built from both components and the string form "( a, b )".

    The components' own `equals`, `hashCode` and `toString` are those of the element
    types: equality is Dafny's `==`, and `hashA`/`hashB`, `strA`/`strB` are parameters.
 */
module Pair {
  import opened Wrappers
  import JavaInt

  datatype Pair<A, B> = Pair(a: Nullable<A>, b: Nullable<B>)

  /** The constructor: it stores both arguments, null or not. */
  function New<A, B>(a: Nullable<A>, b: Nullable<B>): (p: Pair<A, B>)
    ensures GetA(p) == a && GetB(p) == b
  {
    Pair(a, b)
  }

  /** `getA()`. */
  function GetA<A, B>(p: Pair<A, B>): Nullable<A> {
    p.a
  }

  /** `getB()`. */
  function GetB<A, B>(p: Pair<A, B>): Nullable<B> {
    p.b
  }

  /** `equals(other)`: `false` for a null argument; otherwise `a.equals(other.a)` and, only
      if that holds, `b.equals(other.b)`. A null component of the receiver is dereferenced
      and throws. */
  function Equals<A(==), B(==)>(p: Pair<A, B>, other: Nullable<Pair<A, B>>): (r: Result<bool>)
    ensures other.Null? ==> r == Ok(false)
    ensures r == Ok(true) ==> other.Value? && p == other.v
  {
    if other.Null? then Ok(false)
    else if p.a.Null? then Err(NullPointer)
    else if p.a != other.v.a then Ok(false)
    else if p.b.Null? then Err(NullPointer)
    else Ok(p.b == other.v.b)
  }

  /** `hashCode()`: `11 * (11 * 37 + a.hashCode()) + b.hashCode()` in 32-bit arithmetic; a
      null component throws. */
  function HashCode<A, B>(p: Pair<A, B>, hashA: A -> int, hashB: B -> int): (r: Result<int>)
    ensures r.Ok? <==> p.a.Value? && p.b.Value?
    ensures r.Ok? ==> JavaInt.InRange(r.value)
  {
    if p.a.Null? || p.b.Null? then Err(NullPointer)
    else Ok(JavaInt.Wrap(11 * JavaInt.Wrap(11 * 37 + hashA(p.a.v)) + hashB(p.b.v)))
  }

  /** `toString()`: "( " + a + ", " + b + " )"; a null component throws. */
  function ToString<A, B>(p: Pair<A, B>, strA: A -> string, strB: B -> string): (r: Result<string>)
    ensures r.Ok? <==> p.a.Value? && p.b.Value?
  {
    if p.a.Null? || p.b.Null? then Err(NullPointer)
    else Ok("( " + strA(p.a.v) + ", " + strB(p.b.v) + " )")
  }

  /** For pairs without null components, `equals` is componentwise equality, in both
      directions, and it is symmetric. */
  lemma EqualsIsComponentwise<A, B>(p: Pair<A, B>, q: Pair<A, B>)
    requires p.a.Value? && p.b.Value? && q.a.Value? && q.b.Value?
    ensures Equals(p, Value(q)) == Ok(p.a == q.a && p.b == q.b)
    ensures Equals(p, Value(q)) == Equals(q, Value(p))
  {
  }

  /** Equal pairs have equal hash codes. */
  lemma EqualPairsHaveEqualHashCodes<A, B>(p: Pair<A, B>, q: Pair<A, B>, hashA: A -> int, hashB: B -> int)
    requires Equals(p, Value(q)) == Ok(true)
    ensures HashCode(p, hashA, hashB) == HashCode(q, hashA, hashB)
    ensures HashCode(p, hashA, hashB).Ok?
  {
  }

  /** The string form is framed by "( " and " )" with the two components' strings
      separated by ", ", so both strings can be read back from it. */
  lemma ToStringLayout<A, B>(p: Pair<A, B>, strA: A -> string, strB: B -> string)
    requires p.a.Value? && p.b.Value?
    ensures var s := ToString(p, strA, strB).value;
            var x, y := strA(p.a.v), strB(p.b.v);
            && |s| == |x| + |y| + 6
            && s[..2] == "( " && s[2..2 + |x|] == x && s[2 + |x|..4 + |x|] == ", "
            && s[4 + |x|..4 + |x| + |y|] == y && s[|s| - 2..] == " )"
  {
  }

  /** A pair of nulls can be constructed and read back, but not compared or printed. */
  lemma NullComponents<A, B>(other: Nullable<Pair<A, B>>, strA: A -> string, strB: B -> string)
    ensures GetA(New<A, B>(Null, Null)).Null? && GetB(New<A, B>(Null, Null)).Null?
    ensures other.Value? ==> Equals(New<A, B>(Null, Null), other) == Err(NullPointer)
    ensures ToString(New<A, B>(Null, Null), strA, strB) == Err(NullPointer)
  {
  }
}
