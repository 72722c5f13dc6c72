/** Outcomes of the programs' instructions. A Rust panic or a `?` error aborts
    the whole instruction, so every failure is a `Failure` carrying its cause. */
module Results {

  datatype Error =
    | IndexOutOfBounds  // a slice `data[lo..hi]` or index `data[i]` that leaves the buffer
    | LengthMismatch    // `copy_from_slice` between slices of different lengths
    | SerializeFailed   // the protobuf serialiser's error, turned into a panic by `unwrap`

  datatype Result<+T> = Success(value: T) | Failure(error: Error) {

    predicate IsFailure() {
      Failure?
    }

    function PropagateFailure<U>(): Result<U>
      requires Failure?
    {
      Failure(error)
    }

    function Extract(): T
      requires Success?
    {
      value
    }
  }

  datatype Option<+T> = None | Some(value: T)
}
