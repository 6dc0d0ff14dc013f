/** Failure-carrying values shared by every part of the splitter model. */
module Results {

  /** The ways one `split` call can fail. Every one of them aborts the whole call. */
  datatype Error =
    | Utf8Error(startByte: nat, endByte: nat)  // the bytes of [startByte, endByte) are not valid UTF-8
    | SizerError(message: string)              // the size metric could not measure a text
    | ParseError(message: string)              // the grammar could not be loaded or the parser gave up

  /** A value or the error that prevented it; usable with `:-`. */
  datatype Result<+T> = Ok(value: T) | Err(error: Error) {

    predicate IsFailure() {
      Err?
    }

    function PropagateFailure<U>(): Result<U>
      requires Err?
    {
      Err(error)
    }

    function Extract(): T
      requires Ok?
    {
      value
    }
  }

  datatype Option<+T> = None | Some(value: T)
}
