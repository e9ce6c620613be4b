/** The failures the header core can raise, and the Option/Result wrappers
    the model uses in place of Python's exceptions and `None`. */
module Errors {

  /** One constructor per Python exception that can escape the core. */
  datatype Error =
    | ValidationError   // decoder.ValidationError: no signature, bad text field, bad region digit
    | KeyError          // a dict lookup with a key that is not in the table
    | IndexError        // indexing an empty str or bytes value
    | ValueError        // int(s, 16) of a string that is not hexadecimal
    | TypeError         // a bytes value used where Python 3 needs a str
    | AttributeError    // retrieve called on a header that was never chosen
    | StructError       // pack("B", n) with n outside 0..255

  datatype Option<+T> = None | Some(value: T)

  /** A value, or the exception that interrupted its computation. Usable with `:-`. */
  datatype Result<+T> = Ok(value: T) | Err(error: Error) {

    predicate IsFailure() {
      Err?
    }

    function PropagateFailure<U>(): Result<U>
      requires Err?
    {
      Err(error)
    }

    function Extract(): T
      requires Ok?
    {
      value
    }
  }
}
