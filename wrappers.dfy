/** Rust's `Option`, the one failure-compatible type the model needs. */
module Wrappers {

  datatype Option<+T> = None | Some(value: T)

  /** `opt.unwrap_or(0)` for an optional index. */
  function UnwrapOrZero(opt: Option<nat>): (i: nat)
    ensures opt.Some? ==> i == opt.value
    ensures opt.None? ==> i == 0
  {
    match opt
    case Some(v) => v
    case None => 0
  }
}
