/** Failure-compatible wrappers shared by the decoder model.

    Every `panic` of the decoder (a slice index past the end, an `unwrap` on bad
    UTF-8, a `usize` underflow, the explicit `panic!()`) becomes an `Err` carrying
    one of the `DecodeError` kinds below, so that the whole decode either produces
    a document or fails, as the original process-aborting code does. */
module Outcomes {
  import opened LittleEndian

  datatype Option<+T> = None | Some(value: T)

  /** Why a decode was abandoned. */
  datatype DecodeError =
    | OutOfBounds            // a slice `data[a..b]` with `b > data.len()`
    | InvalidUtf8            // `String::from_utf8(..).unwrap()` on ill-formed bytes
    | LengthUnderflow        // `length as usize - 1` with `length == 0`
    | UnknownField(tag: byte) // an unrecognised tag inside an array or an object

  datatype Result<+T> = Ok(value: T) | Err(error: DecodeError) {
    predicate IsFailure() {
      Err?
    }

    function PropagateFailure<U>(): Result<U>
      requires Err?
    {
      Err(error)
    }

    function Extract(): T
      requires Ok?
    {
      value
    }
  }
}
