/** Option and Result values, and the Python exceptions the codec can raise. */
module Wrappers {

  datatype Option<+T> = None | Some(value: T)

  /** The exceptions of the original program that the model keeps track of. */
  datatype Exception =
    | IndexError      // indexing past the end of a list or a bit array
    | AttributeError  // `match.group` on a failed regular-expression search
    | ValueError      // `int(...)` on text that is not a decimal integer
    | UnicodeDecodeError  // `bytes.decode()` on bytes that are not UTF-8
    | KeyError        // looking up a symbol the code table does not hold

  datatype Result<+T> = Ok(value: T) | Err(error: Exception)
}
