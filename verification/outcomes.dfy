/** The outcome of a call into the maze code: either a value or one of the two
    Python exceptions the code can raise. */
module Outcomes {

  /** The exceptions raised by list subscripts, `carve`, `list.remove`,
      `random.choice` and `random.randrange`. */
  datatype Error = IndexError | ValueError

  datatype Option<+T> = None | Some(value: T)

  /** A returned value, or a raised exception; usable with `:-`. */
  datatype Result<+T> = Ok(value: T) | Err(error: Error) {

    predicate IsFailure() {
      Err?
    }

    function PropagateFailure<U>(): Result<U>
      requires Err?
    {
      Err(error)
    }

    function Extract(): T
      requires Ok?
    {
      value
    }
  }
}
