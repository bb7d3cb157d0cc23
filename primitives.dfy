/** Java primitive widths and the failure-compatible result type shared by the other modules. */
module Primitives {

  /** A Java byte seen through `b & 0xFF`: its unsigned value. */
  type byte = b: int | 0 <= b < 0x100

  /** A Java `short` (the flood counters). */
  type short = x: int | -0x8000 <= x < 0x8000

  /** A Java `int`. */
  type int32 = x: int | -0x8000_0000 <= x < 0x8000_0000

  /** A Java `long`. */
  type int64 = x: int | -0x8000_0000_0000_0000 <= x < 0x8000_0000_0000_0000

  const MIN_INT: int32 := -0x8000_0000
  const MAX_INT: int32 := 0x7fff_ffff

  /** Reduces an unbounded integer to the Java `int` it wraps around to. */
  function Wrap32(x: int): (r: int32)
    ensures (r - x) % 0x1_0000_0000 == 0
    ensures -0x8000_0000 <= x < 0x8000_0000 ==> r == x
  {
    var u := x % 0x1_0000_0000;
    if u < 0x8000_0000 then u else u - 0x1_0000_0000
  }

  /** Java's unary minus on an `int`: the negation of Integer.MIN_VALUE is itself. */
  function Negate32(x: int32): (r: int32)
    ensures x != MIN_INT ==> r == -x
    ensures x == MIN_INT ==> r == MIN_INT
  {
    Wrap32(-(x as int))
  }

  /** Java's `x++` on a `short`, which wraps from 32767 to -32768. */
  function Inc16(x: short): (r: short)
    ensures x < 0x7fff ==> r == x + 1
    ensures x == 0x7fff ==> r == -0x8000
  {
    if x == 0x7fff then -0x8000 else x + 1
  }

  datatype Option<+T> = None | Some(value: T)

  /** A value or the exception that aborted the computation. */
  datatype Result<+T, +E> = Success(value: T) | Failure(error: E) {
    predicate IsFailure() { Failure? }

    function PropagateFailure<U>(): Result<U, E>
      requires Failure?
    {
      Failure(error)
    }

    function Extract(): T
      requires Success?
    {
      value
    }
  }

  function Max(a: int, b: int): int { if a > b then a else b }
}
