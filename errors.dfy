/**
  The two exceptions the decoder throws (msgpack.hpp:7-41), with their payload
  fields only, and the outcome of one read.
 */
module Errors {

  import opened Views

  datatype Option<T> = None | Some(value: T)

  datatype Error =
      /** `TypeError`: the tag byte under the cursor is not one the read accepts; `getType()`. */
    | TypeError(tag: byte)
      /** `LengthError`: `getActual()` bytes were left where `getExpected()` were asked for. */
    | LengthError(actual: nat, expected: nat)

  /**
    What one `operator>>` does: it succeeds with a value and the cursor it
    leaves behind, or throws, or it dereferences the byte at `index`, which
    the view does not cover.  That byte is read from the caller's memory when
    the buffer behind the view is longer, and the read is undefined when it
    lies outside that buffer; either way the model stops there, with the
    cursor on `index`.
   */
  datatype Outcome<T> =
    | Ok(value: T, next: nat)
    | Thrown(error: Error)
    | Overrun(index: nat)
}
