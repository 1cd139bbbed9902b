/** Options and results shared by the other modules. */
module Wrappers {
  datatype Option<+T> = None | Some(value: T)

  /** What a call that may raise leaves its caller with. */
  datatype Outcome<+T> = Returned(value: T) | Raised

  function Min(a: int, b: int): int {
    if a <= b then a else b
  }

  function Max(a: int, b: int): int {
    if a >= b then a else b
  }
}
