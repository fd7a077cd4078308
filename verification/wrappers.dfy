/** Failure-carrying result types shared by every container model.

    The C++ containers signal failures by throwing `std::runtime_error` or
    `std::out_of_range`; the Go port returns an `error`.  Both are modelled
    as the `Err` case of `Result`, tagged with the kind of failure. */
module Wrappers {

  datatype Option<+T> = None | Some(value: T)

  /** The kinds of failure the containers report. */
  datatype Failure =
    | Full               // "table is full" (open addressing, cuckoo)
    | KeyNotFound        // lookup of an absent key
    | IndexOutOfRange    // dynamic array bounds check
    | EmptyContainer     // pop/peek/dequeue on an empty stack or queue
    | TooManyIterations  // cuckoo displacement chain reached its bound
    | ShortRead          // the byte stream ended inside a field
    | NegativeLength     // a Go length prefix that `make` would reject

  datatype Result<+T> = Ok(value: T) | Err(failure: Failure) {
    predicate IsFailure() { Err? }

    function PropagateFailure<U>(): Result<U>
      requires Err?
    {
      Err(failure)
    }

    function Extract(): T
      requires Ok?
    {
      value
    }
  }
}
