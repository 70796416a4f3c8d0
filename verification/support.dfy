/** Small failure-compatible wrappers shared by the other modules. */
module Wrappers {

  /** A value that may be missing: the JavaScript `false`, `null` or
      `undefined` that several of the modelled functions return. */
  datatype Option<+T> = None | Some(value: T)

  /** The outcome of an operation that may throw: `Failure` carries the
      message of the thrown `Error`. */
  datatype Result<+T, +E> = Success(value: T) | Failure(error: E)
}

/** The parts of JavaScript's Math object and value semantics the models use. */
module JsMath {
  import opened Wrappers

  /** JavaScript truthiness of a number, or of `false`/`null`/`undefined`
      (here `None`): only 0 among the numbers is falsy. */
  predicate Truthy(o: Option<int>)
  {
    o.Some? && o.value != 0
  }

  /** Math.max on two integers. */
  function Max(a: int, b: int): (m: int)
    ensures m >= a && m >= b
    ensures m == a || m == b
  {
    if a >= b then a else b
  }
}
