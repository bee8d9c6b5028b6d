/** Failure-compatible wrappers shared by the decoder model. */
module Results {

  datatype Option<+T> = None | Some(value: T)

  /** The Python exception a decoding step of cel_file.py raises. */
  datatype PyError =
    | StructError          // struct.unpack given fewer bytes than its format needs
    | UnicodeDecodeError   // the UTF-16BE codec rejects a buffer (odd length, lone surrogate)
    | TypeError            // slicing a parameter value that is None
    | AttributeError       // calling a bytes method on None or on a str
    | IndexError           // indexing an empty list
    | ValueError           // fp.read given a length below -1

  /** A decoding result: the value, or the exception that aborted the decode. */
  datatype Result<+T> = Ok(value: T) | Err(error: PyError) {
    predicate IsFailure() { Err? }

    function PropagateFailure<U>(): Result<U>
      requires Err?
    {
      Err(error)
    }

    function Extract(): T
      requires Ok?
    {
      value
    }
  }
}
