/** The failure kinds the codec reports through its single revert channel,
    and a failure-compatible Result so that `:-` propagates them. */
module Errors {

  datatype Error =
    | EmptyInput          // a tag byte was expected but the buffer is empty
    | UnknownVariantTag   // the tag byte names no supported variant
    | LengthOverflow      // a bounded field or the junction path exceeds its bound
    | ShortRead           // fewer bytes remain than a fixed-width field needs
    | UnsupportedVariant  // Plurality has no byte layout

  datatype Result<+T> = Ok(value: T) | Err(error: Error) {
    predicate IsFailure() {
      Err?
    }

    function PropagateFailure<U>(): Result<U>
      requires Err?
    {
      Err(error)
    }

    function Extract(): T
      requires Ok?
    {
      value
    }
  }

  datatype Option<+T> = None | Some(value: T)
}
