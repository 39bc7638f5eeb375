/** Outcome of every decoding step: a value together with the stream position
    after it, or the reason the Python decoder raises an exception. */
module Results {

  /** Why a decode aborts. The Python decoder raises ValueError for a bad magic
      number, struct.error for a read whose byte count does not match its
      format, and UnicodeDecodeError for a texture name that is not UTF-8. */
  datatype DecodeError =
    | BadMagic(found: nat)                        // ValueError: not an sgm file
    | ShortRead(offset: nat, wanted: nat)         // struct.error: fewer bytes than the format needs
    | IndexWidthMismatch(offset: nat, width: nat) // struct.error: index bytes do not fit '<H' or '<I'
    | BadNameLength(offset: nat)                  // struct.error: name length prefix 0 gives '<-1s'
    | InvalidUtf8(offset: nat)                    // UnicodeDecodeError on a texture name

  /** An attribute that a record may or may not carry (Python's None). */
  datatype Option<+T> = None | Some(value: T)

  /** A value decoded from the stream and the position of the first byte after it. */
  datatype Parsed<+T> = Parsed(value: T, next: nat)

  /** Failure-compatible result, usable with `:-`. */
  datatype Result<+T> = Ok(value: T) | Err(error: DecodeError) {

    predicate IsFailure() {
      Err?
    }

    function PropagateFailure<U>(): Result<U>
      requires Err?
    {
      Err(error)
    }

    function Extract(): T
      requires Ok?
    {
      value
    }
  }
}
