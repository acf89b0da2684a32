/** Rust's `Result`: the value of a step that succeeded, or the error that stopped it. */
module Results {

  datatype Result<+T, +E> = Ok(value: T) | Err(error: E) {

    /** Applies `f` to a success value; an error passes through untouched. */
    function Map<U>(f: T -> U): Result<U, E> {
      match this
      case Ok(t) => Ok(f(t))
      case Err(e) => Err(e)
    }
  }
}
