/** The outcome of a computation that may end in a Go run-time panic
    (an index out of range on an empty slice or an empty string). */
module Panics {

  datatype Result<T> = Ok(value: T) | Panicked
}
