/** Outcome types for the extension methods.

    The C# library signals two different things that a pure function cannot
    return directly: a `null` result (a convenience overload called on an empty
    collection) and an exception (thrown by the runtime or wrapped into a
    library exception). `Option` stands for the first and `Result` for the
    second; every exception, whatever its class or message, is the single
    `Failure` case. Both support Dafny's `:-` propagation. */
module Wrappers {

  /** `None` is the C# `null` reference. */
  datatype Option<+T> = None | Some(value: T)

  /** `Failure` is any exception escaping the C# method. */
  datatype Result<+T> = Success(value: T) | Failure {

    predicate IsFailure() {
      Failure?
    }

    function PropagateFailure<U>(): Result<U>
      requires Failure?
    {
      Failure
    }

    function Extract(): T
      requires Success?
    {
      value
    }
  }
}
