/** The failures the scraper's pure transformations can raise.

The Python code never catches anything: an out-of-range index, a missing
dictionary key or a malformed integer aborts the run.  The model makes each of
those an explicit `Err` value instead of a precondition, so that the error
paths are part of what is proved.
 */
module Results {

  /** The Python exception (or pandas error) a step would raise. */
  datatype Error =
    | IndexError(context: string)                 // list or string index out of range
    | KeyError(key: string)                       // dictionary lookup of a missing key
    | ValueError(text: string)                    // `int()` of a string that is not an integer
    | LengthMismatch(expected: nat, actual: nat)  // pandas column assignment of the wrong length

  /** Either the value a step computes or the error it raises; usable with `:-`. */
  datatype Result<+T> = Ok(value: T) | Err(error: Error) {

    predicate IsFailure() {
      Err?
    }

    function PropagateFailure<U>(): Result<U>
      requires Err?
    {
      Err(error)
    }

    function Extract(): T
      requires Ok?
    {
      value
    }
  }
}
