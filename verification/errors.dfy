/** The failures a twoskip read can end in, and the result type every
    decoding function returns. */
module Errors {
  import opened Bytes

  /** One constructor per variant of twoskip-rs's `Error` enum, plus
      `UnknownRecordType` for the tag byte that the Rust reader's conversion to
      `RecordType` would abort on. */
  datatype Error =
    | InvalidFileSize
    | InvalidHeaderMagic
    | VersionMismatch
    | ChecksumMismatch
    | InvalidLevel
    | UnknownRecordType(tag: byte)
    /** A failure of the file or mapping collaborator; never produced here. */
    | InternalError

  /** Success with a value, or one of the errors above. */
  datatype Result<+T> = Ok(value: T) | Err(error: Error) {

    predicate IsFailure() {
      Err?
    }

    function PropagateFailure<U>(): Result<U>
      requires Err?
    {
      Err(error)
    }

    function Extract(): T
      requires Ok?
    {
      value
    }
  }
}
