/** Option and Result wrappers, and the exceptions the cache code can raise. */
module Results {

  datatype Option<+T> = None | Some(value: T)

  datatype Result<+T, +E> = Ok(value: T) | Err(error: E) {
    predicate IsFailure() { Err? }
    function PropagateFailure<U>(): Result<U, E>
      requires Err?
    {
      Err(error)
    }
    function Extract(): T
      requires Ok?
    {
      value
    }
  }

  /** The errno family of an `OSError`. */
  datatype OSKind =
    | NotFound          // FileNotFoundError
    | IsADirectory      // IsADirectoryError
    | NotADirectory     // NotADirectoryError
    | PermissionDenied  // PermissionError, or any refusal of the operating system to delete
    | Unspecified       // a bare `raise IOError`, or an extraction clash

  /** The Python exceptions that reach the callers of the cache. */
  datatype Error =
    | OSError(kind: OSKind)
    | ValueError          // malformed JSON or malformed timestamp
    | KeyError
    | TypeError
    | IndexError
    | UnboundLocalError   // `f.close()` when no decompression branch bound `f`
    | ArchiveError        // tarfile.ReadError, gzip/bz2 decoding errors

  const FileNotFoundError: Error := OSError(NotFound)
}
