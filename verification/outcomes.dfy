/** Failure-carrying datatypes shared by the whole model.

    The library reports failures by raising exceptions; here every operation
    that can raise returns a `Result` whose `Err` side names the exception kind.
    Message texts are not modelled, only the kind.
 */
module Outcomes {

  /** Python's `Optional[T]`: `None` or a present value. */
  datatype Option<+T> = None | Some(value: T)

  /** The three exceptions the library raises, plus the `IndexError` that
      Python list indexing raises when an index is out of range. */
  datatype Error =
    | InvalidBuilderState
    | NonMatchingUrl
    | DataElementNotFound
    | IndexError

  /** Either a returned value or a raised exception. */
  datatype Result<+T> = Ok(value: T) | Err(error: Error)
}
