/** Error kinds and the Option/Result wrappers the rest of the model uses
    in place of Rust's `Option`, `io::Result` and `io::ErrorKind`. */
module Io {

  /** The `io::ErrorKind` values the model can produce. */
  datatype ErrorKind = NotFound | AlreadyExists | NotADirectory | Unsupported | Other

  datatype Option<T> = None | Some(value: T)

  /** `io::Result<T>`: a value, or the kind of the error that stopped the call. */
  datatype Result<T> = Ok(value: T) | Err(error: ErrorKind)
}
