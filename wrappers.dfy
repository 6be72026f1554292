/** Small helpers shared by the other modules. */
module Wrappers {

  /** A value that may be absent (JavaScript's `undefined`, or a thrown error). */
  datatype Option<+T> = None | Some(value: T)

  /** `Math.min` on integers. */
  function Min(a: int, b: int): int { if a <= b then a else b }

  /** `Math.max` on integers. */
  function Max(a: int, b: int): int { if a >= b then a else b }
}
