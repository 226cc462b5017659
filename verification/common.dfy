/** Failure-carrying datatypes shared by every module of the model. */
module Common {

  /** A value that may be missing. */
  datatype Option<T> = None | Some(value: T)

  /** Either a computed value or the error a Go function returned in its place. */
  datatype Result<T, E> = Ok(value: T) | Err(error: E)

  /** The effect of a Go method that mutates its receiver and returns an `error`:
      the receiver as it is when the method returns, and the error, if any. */
  datatype Step<S, E> = Step(state: S, err: Option<E>)

  /** Unsigned 64-bit integers, as Go's `uint64`. */
  type uint64 = x: nat | x < 0x1_0000_0000_0000_0000
}
