/** Shared wrappers: the optional-value type the Rust code uses everywhere, and
    a result type whose failure side names the panic the Rust code would raise. */
module Common {

  /** Rust's `Option<T>`. */
  datatype Option<+T> = None | Some(value: T)

  /** The panics of the modelled code, each one a failure value here. */
  datatype Panic =
    | StartPastLength     // `assert!(start <= length)` in `WrappingIndexIterator::new`
    | RemainderByZero     // `% upper_bound` with an upper bound of 0 in `compress`
    | CapacityExhausted   // `.expect("PrimitiveMap capacity is exhausted")` in `insert`
    | NoRuntimeCapacity   // `initialized_with_capacity` of a fixed-size array store
    | IndexOutOfBounds    // an array index past the end, as in the legacy `ArrayBucket::push`

  /** Either the value an operation returns or the panic it raises. */
  datatype Result<+T> = Ok(value: T) | Err(panic: Panic) {

    predicate IsFailure() {
      Err?
    }

    function PropagateFailure<U>(): Result<U>
      requires Err?
    {
      Err(panic)
    }

    function Extract(): T
      requires Ok?
    {
      value
    }
  }
}
