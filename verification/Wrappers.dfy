// The optional value, the fallible result and the errors shared by the modules.

module Wrappers {
  datatype Option<+T> = None | Some(value: T)

  datatype Result<+T> = Ok(value: T) | Err(error: Error)

  /** The sentinel errors of internal/casc, and anything a codec or the file system may report. */
  datatype Error =
    | BadFormat
    | FileCorrupt
    | NotSupported
    | Encrypted
    | InvalidHandle
    | InvalidParameter
    | FileNotFound
    | Other(code: nat)
}
