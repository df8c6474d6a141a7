/** Failure-carrying datatypes shared by the whole model.

    Java reports failures with unchecked exceptions; the model returns them as
    values. `Nullable` stands for a Java reference that may be `null`.
 */
module Wrappers {

  /** A Java reference that may be `null`. */
  datatype Nullable<+T> = Null | Value(v: T)

  /** The exceptions the modelled code can raise. */
  datatype Error =
    | IndexOutOfBounds(index: int, size: int)  // IndexOutOfBoundsException(index, size)
    | NullPointer                              // NullPointerException

  /** Either a normal return value or the exception that was thrown. */
  datatype Result<+R> = Ok(value: R) | Err(error: Error) {
    predicate IsFailure() {
      Err?
    }

    function PropagateFailure<U>(): Result<U>
      requires Err?
    {
      Err(error)
    }

    function Extract(): R
      requires Ok?
    {
      value
    }
  }
}

/** Java `int` arithmetic: every result of `+` and `*` wraps to 32 bits. */
module JavaInt {

  const Modulus: int := 0x1_0000_0000
  const MinInt: int := -0x8000_0000
  const MaxInt: int := 0x7fff_ffff

  predicate InRange(x: int) {
    MinInt <= x <= MaxInt
  }

  /** Two's complement wrap-around of an unbounded integer into the `int` range. */
  function Wrap(x: int): (r: int)
    ensures InRange(r)
    ensures (r - x) % Modulus == 0
    ensures InRange(x) ==> r == x
  {
    var m := (x - MinInt) % Modulus;
    m + MinInt
  }

  /** Java's `/` by a positive divisor, which truncates toward zero where Dafny's rounds
      toward negative infinity. */
  function Div(a: int, b: int): (q: int)
    requires b > 0
    ensures a >= 0 ==> q == a / b
    ensures a < 0 ==> q <= 0 && -q == -a / b
  {
    if a >= 0 then a / b else -((-a) / b)
  }
}
