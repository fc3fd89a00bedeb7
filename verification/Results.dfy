/** Failure-compatible result types, and the crate's error taxonomy. */
module Results {

  datatype Option<+T> = None | Some(value: T)

  /** The two errors the pure crate can raise; message texts are not modelled. */
  datatype IntegrityError = Canonicalization | MissingName

  datatype Result<+T> = Ok(value: T) | Err(error: IntegrityError) {

    predicate IsFailure() {
      Err?
    }

    function PropagateFailure<U>(): Result<U>
      requires Err?
    {
      Err(error)
    }

    function Extract(): T
      requires Ok?
    {
      value
    }
  }

  /** The one failure every violation of the JCS domain raises. */
  function CanonFail<T>(): Result<T> {
    Err(Canonicalization)
  }
}
