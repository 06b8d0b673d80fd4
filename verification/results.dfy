/** Failure-compatible wrappers shared by every solver of the model.
    A Rust `Option` becomes `Option`, and a computation that can return an
    `anyhow` error or panic becomes a `Result` whose error says which. */
module Results {

  datatype Option<+T> = None | Some(value: T) {
    predicate IsFailure() { None? }

    function PropagateFailure<U>(): Option<U>
      requires None?
    {
      None
    }

    function Extract(): T
      requires Some?
    {
      value
    }
  }

  /** Why a solver stopped without an answer. */
  datatype Error =
    | NotEnoughLocationIds    // day 1: a line without a space byte
    | InvalidInputFormat      // day 7: a line without ':'
    | ParseIntError           // `str::parse` rejected a token
    | Panic(reason: string)   // an index, slice, assert! or unwrap failed

  datatype Result<+T> = Ok(value: T) | Err(error: Error) {
    predicate IsFailure() { Err? }

    function PropagateFailure<U>(): Result<U>
      requires Err?
    {
      Err(error)
    }

    function Extract(): T
      requires Ok?
    {
      value
    }
  }
}
