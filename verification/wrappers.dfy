/** Failure-carrying datatypes shared by every module of the model.
    A Python function that returns normally or raises is modelled by one of these:
    - Option<T>: a value or nothing (e.g. Python `int()` either converts or raises ValueError);
    - Result<T, E>: a value or an error;
    - Outcome<E>: no value, just pass or an error (a validator that returns None or raises).
 */
module Wrappers {

  datatype Option<+T> = None | Some(value: T)

  datatype Result<+T, +E> = Success(value: T) | Failure(error: E)

  datatype Outcome<+E> = Pass | Fail(error: E)

}
