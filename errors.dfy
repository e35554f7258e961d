/**
 * The single error channel of the crate, as a tag, and the result type the
 * fallible operations return.
 */
module Errors {

  datatype Error =
    | NotAlphabetic     // a chunk-type byte lies outside 65-90 and 97-122
    | TooShort          // fewer than the 12 bytes of an empty chunk
    | Truncated         // fewer payload bytes than the declared length
    | ChecksumMismatch  // the declared CRC differs from the recomputed one
    | UnreadableByte    // a payload byte could not be read as a character

  datatype Result<T> = Ok(value: T) | Err(error: Error)
}
