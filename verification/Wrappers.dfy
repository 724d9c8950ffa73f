module Wrappers {
  /** A value that may be absent. */
  datatype Option<+T> = None | Some(value: T)

  /** How a write or a removal on disk ends: it may report an error after it took effect. */
  datatype Write = Done | NotDone | DoneButFailed

  function Max(a: int, b: int): int { if a < b then b else a }
}
