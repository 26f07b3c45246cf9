/** Values that stand for Python's optional values and raised exceptions. */
module Outcomes {

  /** Python's `None`-or-value, e.g. the `maxsize` of an unbounded cache. */
  datatype Option<+T> = None | Some(value: T)

  /** The exception classes the memoization core raises or lets through.
      `Raised` stands for whatever a wrapped callable or a lazy getter raises;
      the core propagates it unchanged. */
  datatype Error =
    | KeyError
    | AttributeError
    | TypeError
    | Raised(code: int)

  /** A call that either returns a value or raises. */
  datatype Result<+T> = Ok(value: T) | Err(error: Error)
}
