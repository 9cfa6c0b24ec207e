// Shared wrapper types: Rust's Option, a Rust panic, and arrow's `Result<()>`.

module Base {

  /** Rust's `Option<T>`. */
  datatype Option<T> = None | Some(value: T)

  /** The outcome of Rust code that may panic (an `unwrap` on `None`, an out-of-range index). */
  datatype Outcome<T> = Panic | Done(value: T)

  /** `arrow::error::Result<()>`: what a serializer returns. */
  datatype Status = Ok | Err(message: string)

  /** `arrow::error::Result<T>` for results that carry a value. */
  datatype Result<T> = Success(value: T) | Failure(message: string)
}
